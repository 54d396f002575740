/** Token scopes: `repository:<name>:<actions>`. */
module Scopes {
  import opened Common
  import opened Text

  datatype AccessAction = Pull | Push | Delete | Admin

  datatype RepositoryScope = RepositoryScope(repository: string, actions: set<AccessAction>)

  datatype ScopeError = InvalidFormat | UnsupportedResource | UnknownAction(name: string)

  const RESOURCE := "repository"

  function PrintAction(a: AccessAction): (s: string)
    ensures s != "" && ',' !in s
  {
    match a
    case Pull => "pull"
    case Push => "push"
    case Delete => "delete"
    case Admin => "admin"
  }

  function ParseAction(s: string): (r: Result<AccessAction, ScopeError>)
    ensures forall a :: r == Ok(a) <==> s == PrintAction(a)
  {
    if s == "pull" then Ok(Pull)
    else if s == "push" then Ok(Push)
    else if s == "delete" then Ok(Delete)
    else if s == "admin" then Ok(Admin)
    else Err(UnknownAction(s))
  }

  /** The actions in the order of the set that holds them. */
  function Names(actions: set<AccessAction>): seq<string> {
    (if Pull in actions then [PrintAction(Pull)] else [])
    + (if Push in actions then [PrintAction(Push)] else [])
    + (if Delete in actions then [PrintAction(Delete)] else [])
    + (if Admin in actions then [PrintAction(Admin)] else [])
  }

  function Print(s: RepositoryScope): string {
    RESOURCE + ":" + s.repository + ":" + Join(Names(s.actions), ',')
  }

  /** The non-empty pieces, read one by one. */
  function ReadActions(pieces: seq<string>): Result<set<AccessAction>, ScopeError> {
    if pieces == [] then Ok({})
    else
      var front := ReadActions(pieces[..|pieces| - 1]);
      var last := pieces[|pieces| - 1];
      if front.Err? || last == "" then front
      else
        match ParseAction(last)
        case Err(error) => Err(error)
        case Ok(a) => Ok(front.value + {a})
  }

  lemma {:induction false} ReadActionsIs(pieces: seq<string>)
    ensures var r := ReadActions(pieces);
      && (r.Ok? ==> forall a :: a in r.value <==> PrintAction(a) in pieces)
      && (r.Ok? <==> forall i :: 0 <= i < |pieces| && pieces[i] != "" ==> exists a :: pieces[i] == PrintAction(a))
  {
    hide PrintAction, ParseAction;
    if pieces != [] {
      var front, last := pieces[..|pieces| - 1], pieces[|pieces| - 1];
      ReadActionsIs(front);
      assert pieces == front + [last];
      assert forall i :: 0 <= i < |front| ==> front[i] == pieces[i];
    }
  }

  /** `RepositoryScope::from_str`: at most three pieces, so the actions may hold colons. */
  function Parse(value: string): Result<RepositoryScope, ScopeError> {
    match SplitOnce(value, ':')
    case None => Err(if value == RESOURCE then InvalidFormat else UnsupportedResource)
    case Some((resource, rest)) =>
      if resource != RESOURCE then Err(UnsupportedResource)
      else
        match SplitOnce(rest, ':')
        case None => Err(InvalidFormat)
        case Some((repository, actions)) =>
          if repository == "" then Err(InvalidFormat)
          else
            match ReadActions(Split(actions, ','))
            case Err(error) => Err(error)
            case Ok(granted) => Ok(RepositoryScope(repository, granted))
  }

  predicate Permits(s: RepositoryScope, repository: string, action: AccessAction) {
    s.repository == repository && (action in s.actions || Admin in s.actions)
  }

  lemma NamesAre(actions: set<AccessAction>)
    ensures forall a :: a in actions ==> PrintAction(a) in Names(actions)
    ensures forall name :: name in Names(actions) ==> exists a :: a in actions && name == PrintAction(a)
  {
    forall a | a in actions
      ensures PrintAction(a) in Names(actions)
    {
      match a
      case Pull =>
      case Push =>
      case Delete =>
      case Admin =>
    }
  }

  lemma NamesDiffer(a: AccessAction, b: AccessAction)
    ensures PrintAction(a) == PrintAction(b) ==> a == b
  {
    assert |PrintAction(a)| == |PrintAction(b)| ==> a == b || PrintAction(a)[2] != PrintAction(b)[2];
  }

  /** The set read back from the printed names is the set. */
  lemma NamesReadBack(actions: set<AccessAction>)
    ensures ReadActions(Split(Join(Names(actions), ','), ',')) == Ok(actions)
  {
    hide Names, PrintAction, ReadActions, Split, Join;
    var names := Names(actions);
    NamesAre(actions);
    forall a, b
      ensures PrintAction(a) == PrintAction(b) ==> a == b
    {
      NamesDiffer(a, b);
    }
    var pieces := if names == [] then [""] else names;
    if names == [] {
      SplitNothing("", ',');
      EmptyJoin(names);
    } else {
      assert forall i :: 0 <= i < |names| ==> names[i] in names;
      SplitJoin(names, ',');
    }
    ReadActionsIs(pieces);
    var read := ReadActions(pieces);
    forall i | 0 <= i < |pieces| && pieces[i] != ""
      ensures exists a :: pieces[i] == PrintAction(a)
    {
      assert pieces[i] in names;
    }
    assert read.value == actions;
  }

  lemma EmptyJoin(names: seq<string>)
    requires names == []
    ensures Join(names, ',') == ""
  {
  }

  /** A scope survives printing and parsing exactly when its name is not empty and has no colon. */
  lemma RoundTripIff(s: RepositoryScope)
    ensures Parse(Print(s)) == Ok(s) <==> s.repository != "" && ':' !in s.repository
  {
    hide Names, ReadActions, Split, Join;
    var actions := Join(Names(s.actions), ',');
    var rest := s.repository + ":" + actions;
    assert ':' !in RESOURCE;
    assert Print(s) == RESOURCE + [':'] + rest;
    SplitOnceIs(RESOURCE, ':', rest);
    if ':' !in s.repository {
      assert rest == s.repository + [':'] + actions;
      SplitOnceIs(s.repository, ':', actions);
      NamesReadBack(s.actions);
    }
  }

  /** Everything that parses has such a name, so parsing what was printed gives it again. */
  lemma ParsePrintParse(value: string)
    requires Parse(value).Ok?
    ensures Parse(Print(Parse(value).value)) == Parse(value)
  {
    RoundTripIff(Parse(value).value);
    hide Print, ReadActions, Split;
  }

  /**
   What a scope in a token grants can be read off its text: the action, or `admin`, is one of the
   pieces after the name.
   */
  lemma GrantsWhatItSays(repository: string, actions: string, wanted: string, action: AccessAction)
    requires repository != "" && ':' !in repository
    requires Parse(RESOURCE + ":" + repository + ":" + actions).Ok?
    ensures Permits(Parse(RESOURCE + ":" + repository + ":" + actions).value, wanted, action) <==>
              wanted == repository && (PrintAction(action) in Split(actions, ',') || "admin" in Split(actions, ','))
  {
    hide ReadActions, Split, SplitOnce, Print, PrintAction;
    var rest := repository + ":" + actions;
    assert ':' !in RESOURCE;
    assert RESOURCE + ":" + repository + ":" + actions == RESOURCE + [':'] + rest;
    SplitOnceIs(RESOURCE, ':', rest);
    assert rest == repository + [':'] + actions;
    SplitOnceIs(repository, ':', actions);
    ReadActionsIs(Split(actions, ','));
    AdminIs();
  }

  /** The text before the first two colons and after them. */
  lemma ScopeText(value: string, repository: string, actions: string)
    requires ':' !in repository
    ensures value == "repository:" + repository + ":" + actions <==>
              SplitOnce(value, ':').Some? && SplitOnce(value, ':').value.0 == RESOURCE
              && SplitOnce(SplitOnce(value, ':').value.1, ':') == Some((repository, actions))
  {
    var rest := repository + [':'] + actions;
    assert "repository:" + repository + ":" + actions == RESOURCE + [':'] + rest;
    assert ':' !in RESOURCE;
    SplitOnceIs(RESOURCE, ':', rest);
    SplitOnceIs(repository, ':', actions);
    hide SplitOnce;
  }

  /** Exactly what parses: the resource, a name without colons, and known actions or empty pieces. */
  lemma ParsesIff(value: string)
    ensures Parse(value).Ok? <==> exists repository: string, actions: string :: IsScope(value, repository, actions)
  {
    hide PrintAction, ParseAction, Split, Print, SplitOnce, ReadActions;
    if Parse(value).Ok? {
      var (repository, actions) := SplitOnce(SplitOnce(value, ':').value.1, ':').value;
      ScopeText(value, repository, actions);
      ReadActionsIs(Split(actions, ','));
      assert IsScope(value, repository, actions);
    }
    if repository: string, actions: string :| IsScope(value, repository, actions) {
      ScopeText(value, repository, actions);
      ReadActionsIs(Split(actions, ','));
    }
  }

  ghost predicate IsScope(value: string, repository: string, actions: string) {
    && value == "repository:" + repository + ":" + actions
    && repository != "" && ':' !in repository
    && forall i :: 0 <= i < |Split(actions, ',')| && Split(actions, ',')[i] != "" ==>
         exists a :: Split(actions, ',')[i] == PrintAction(a)
  }

  lemma AdminIs()
    ensures PrintAction(Admin) == "admin"
  {
  }
}
