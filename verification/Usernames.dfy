/** User names: a one-flag scanner, and the regular expression the database checks. */
module Usernames {
  import opened Common
  import opened Text

  datatype UsernameError = BadLength | BadCharacter | EndsWithSeparator

  // ---------------------------------------------------------------- regular expressions

  datatype Regex = Chars(allowed: set<char>) | Cat(first: Regex, second: Regex) | Star(inner: Regex)

  /** The language of a regular expression. */
  ghost predicate Matches(r: Regex, s: string)
    decreases r, |s|
  {
    match r
    case Chars(allowed) => |s| == 1 && s[0] in allowed
    case Cat(a, b) => exists i :: 0 <= i <= |s| && Matches(a, s[..i]) && Matches(b, s[i..])
    case Star(a) => s == "" || exists i :: 0 < i <= |s| && Matches(a, s[..i]) && Matches(r, s[i..])
  }

  function Plus(r: Regex): Regex { Cat(r, Star(r)) }

  predicate IsAlphanumeric(c: char) {
    'a' <= c <= 'z' || '0' <= c <= '9'
  }

  predicate IsSeparator(c: char) {
    c in {'.', '_', '-'}
  }

  const ALPHANUMERIC: Regex := Chars(set c: char | IsAlphanumeric(c))
  const SEPARATOR: Regex := Chars(set c: char | IsSeparator(c))
  const GROUP: Regex := Cat(SEPARATOR, Plus(ALPHANUMERIC))

  /** `[a-z0-9]+([._-][a-z0-9]+)*`. */
  const GRAMMAR: Regex := Cat(Plus(ALPHANUMERIC), Star(GROUP))

  predicate Word(s: string) {
    forall i :: 0 <= i < |s| ==> IsAlphanumeric(s[i])
  }

  /** Alphanumerics and single separators. */
  predicate Separated(s: string) {
    && (forall i :: 0 <= i < |s| ==> IsAlphanumeric(s[i]) || IsSeparator(s[i]))
    && (forall i :: 0 < i < |s| && IsSeparator(s[i]) ==> !IsSeparator(s[i - 1]))
  }

  /** Nothing, or groups: a separator in front, and none at the end. */
  predicate Groups(s: string) {
    s == "" || (Separated(s) && IsSeparator(s[0]) && !IsSeparator(s[|s| - 1]))
  }

  predicate Name(s: string) {
    s != "" && Separated(s) && !IsSeparator(s[0]) && !IsSeparator(s[|s| - 1])
  }

  lemma {:induction false} WordMatches(s: string)
    ensures Matches(Star(ALPHANUMERIC), s) <==> Word(s)
    ensures Matches(Plus(ALPHANUMERIC), s) <==> s != "" && Word(s)
    decreases |s|
  {
    if s != "" {
      var tail := s[1..];
      WordMatches(tail);
      assert s[..1] == [s[0]];
      assert Word(s) <==> IsAlphanumeric(s[0]) && Word(tail);
      assert Matches(ALPHANUMERIC, s[..1]) <==> IsAlphanumeric(s[0]);
      forall i | 0 <= i <= |s| && Matches(ALPHANUMERIC, s[..i])
        ensures i == 1
      {
        assert |s[..i]| == 1;
      }
    }
  }

  lemma GroupMatches(s: string)
    ensures Matches(GROUP, s) <==> |s| > 1 && IsSeparator(s[0]) && Word(s[1..])
  {
    if s != "" {
      WordMatches(s[1..]);
      assert Matches(SEPARATOR, s[..1]) <==> IsSeparator(s[0]);
    }
    forall i | 0 <= i <= |s| && Matches(SEPARATOR, s[..i])
      ensures i == 1
    {
      assert |s[..i]| == 1;
    }
  }

  lemma {:induction false} GroupsMatch(s: string)
    ensures Matches(Star(GROUP), s) <==> Groups(s)
    decreases |s|
  {
    if Matches(Star(GROUP), s) && s != "" {
      var i :| 0 < i <= |s| && Matches(GROUP, s[..i]) && Matches(Star(GROUP), s[i..]);
      GroupMatches(s[..i]);
      GroupsMatch(s[i..]);
      GroupThenGroups(s, i);
    }
    if Groups(s) && s != "" {
      var i := GroupEnd(s);
      GroupMatches(s[..i]);
      GroupsMatch(s[i..]);
    }
  }

  lemma GroupThenGroups(s: string, i: nat)
    requires 1 < i <= |s| && IsSeparator(s[0]) && Word(s[..i][1..]) && Groups(s[i..])
    ensures Groups(s)
  {
    var group, rest := s[..i], s[i..];
    assert forall k :: 1 <= k < i ==> s[k] == group[1..][k - 1];
    assert forall k :: i <= k < |s| ==> s[k] == rest[k - i];
    hide IsAlphanumeric;
    assert forall c: char :: IsSeparator(c) ==> !IsAlphanumeric(c) by { SeparatorsAreNot(); }
  }

  lemma SeparatorsAreNot()
    ensures forall c: char :: IsSeparator(c) ==> !IsAlphanumeric(c)
  {
  }

  /** Where the first group ends. */
  lemma GroupEnd(s: string) returns (i: nat)
    requires Groups(s) && s != ""
    ensures 1 < i <= |s| && Word(s[..i][1..]) && Groups(s[i..])
  {
    hide IsAlphanumeric;
    i := 1;
    while i < |s| && !IsSeparator(s[i])
      invariant 1 <= i <= |s|
      invariant forall k :: 1 <= k < i ==> !IsSeparator(s[k])
    {
      i := i + 1;
    }
    var rest := s[i..];
    assert forall k :: 0 <= k < |rest| ==> rest[k] == s[i + k];
    assert rest != "" ==> rest[|rest| - 1] == s[|s| - 1];
  }

  /** The language of the database's check, in terms of single characters. */
  lemma GrammarMeans(s: string)
    ensures Matches(GRAMMAR, s) <==> Name(s)
  {
    if Matches(GRAMMAR, s) {
      var i :| 0 <= i <= |s| && Matches(Plus(ALPHANUMERIC), s[..i]) && Matches(Star(GROUP), s[i..]);
      WordMatches(s[..i]);
      GroupsMatch(s[i..]);
      WordThenGroups(s, i);
    }
    if Name(s) {
      var i := WordEnd(s);
      WordMatches(s[..i]);
      GroupsMatch(s[i..]);
    }
  }

  lemma WordThenGroups(s: string, i: nat)
    requires 0 < i <= |s| && Word(s[..i]) && Groups(s[i..])
    ensures Name(s)
  {
    var word, rest := s[..i], s[i..];
    assert forall k :: 0 <= k < i ==> s[k] == word[k];
    assert forall k :: i <= k < |s| ==> s[k] == rest[k - i];
    SeparatorsAreNot();
    hide IsAlphanumeric, IsSeparator;
  }

  lemma WordEnd(s: string) returns (i: nat)
    requires Name(s)
    ensures 0 < i <= |s| && Word(s[..i]) && Groups(s[i..])
  {
    hide IsAlphanumeric;
    i := 1;
    while i < |s| && !IsSeparator(s[i])
      invariant 1 <= i <= |s|
      invariant forall k :: 0 <= k < i ==> !IsSeparator(s[k])
    {
      i := i + 1;
    }
    var rest := s[i..];
    assert forall k :: 0 <= k < |rest| ==> rest[k] == s[i + k];
    assert rest != "" ==> rest[|rest| - 1] == s[|s| - 1];
  }

  // ---------------------------------------------------------------- the scanner

  function LowerChar(c: char): char {
    if 'A' <= c <= 'Z' then c + ('a' - 'A') else c
  }

  /** `to_ascii_lowercase`. */
  function Lower(s: string): (r: string)
    ensures |r| == |s| && forall i :: 0 <= i < |s| ==> r[i] == LowerChar(s[i])
  {
    seq(|s|, i requires 0 <= i < |s| => LowerChar(s[i]))
  }

  /** The length in bytes of the UTF-8 form. */
  function Utf8Length(s: string): (n: nat)
    ensures n >= |s|
    ensures n == |s| <==> forall i :: 0 <= i < |s| ==> s[i] < '\U{80}'
  {
    if s == "" then 0
    else
      var c := s[|s| - 1];
      Utf8Length(s[..|s| - 1])
      + if c < '\U{80}' then 1 else if c < '\U{800}' then 2 else if c < '\U{10000}' then 3 else 4
  }

  /** What the database would accept of an entered name, and as what. */
  ghost function Accepted(value: string): Option<string> {
    var name := Lower(Trim(value));
    if 1 <= |name| <= 64 && Matches(GRAMMAR, name) then Some(name) else None
  }

  /**
   `normalize_username`. It runs over characters where the source runs over bytes: every byte of a
   character outside ASCII is refused like the character.
   */
  method NormalizeUsername(value: string) returns (r: Result<string, UsernameError>)
    ensures r.Ok? <==> Accepted(value).Some?
    ensures r.Ok? ==> Accepted(value) == Some(r.value)
    ensures r == Err(BadLength) <==> !(1 <= Utf8Length(Lower(Trim(value))) <= 64)
  {
    hide Trim, Lower;
    var username := Lower(Trim(value));
    GrammarMeans(username);
    NamesAreAscii(username);
    hide Matches, Utf8Length, Name;
    if username == "" || Utf8Length(username) > 64 { return Err(BadLength); }
    var failure := Scan(username);
    return if failure.Some? then Err(failure.value) else Ok(username);
  }

  /** The loop of `normalize_username`, and the check after it. */
  method Scan(username: string) returns (failure: Option<UsernameError>)
    requires username != ""
    ensures failure.None? <==> Name(username)
    ensures failure != Some(BadLength)
  {
    SeparatorsAreNot();
    hide IsAlphanumeric, IsSeparator;
    var previousWasSeparator := false;
    for i := 0 to |username|
      invariant forall k :: 0 <= k < i ==> IsAlphanumeric(username[k]) || IsSeparator(username[k])
      invariant forall k :: 0 < k < i && IsSeparator(username[k]) ==> !IsSeparator(username[k - 1])
      invariant i > 0 ==> !IsSeparator(username[0]) && previousWasSeparator == IsSeparator(username[i - 1])
      invariant i == 0 ==> !previousWasSeparator
    {
      var c := username[i];
      if IsAlphanumeric(c) {
        previousWasSeparator := false;
      } else if IsSeparator(c) && i > 0 && !previousWasSeparator {
        previousWasSeparator := true;
      } else {
        return Some(BadCharacter);
      }
    }
    return if previousWasSeparator then Some(EndsWithSeparator) else None;
  }

  lemma NamesAreAscii(s: string)
    ensures Name(s) ==> Utf8Length(s) == |s|
  {
    hide Utf8Length;
    assert Name(s) ==> forall i :: 0 <= i < |s| ==> s[i] < '\U{80}';
  }

  /** A name that was accepted is accepted as itself. */
  lemma Idempotent(value: string)
    requires Accepted(value).Some?
    ensures Accepted(Accepted(value).value) == Accepted(value)
  {
    hide Trim, Matches;
    var name := Accepted(value).value;
    GrammarMeans(name);
    assert Trim(name) == name;
    assert Lower(name) == name;
  }
}
