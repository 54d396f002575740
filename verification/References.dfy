/** Image references: `registry/namespace/name:tag` and `registry/namespace/name@digest`. */
module References {
  import opened Common
  import opened Text
  import Digests
  import Registry

  datatype ImageReference = ImageReference(registry: string, repository: string, reference: string)

  datatype ReferenceError = MissingRegistry | InvalidRegistry | InvalidRepository | InvalidReference | InvalidDigest

  predicate IsDigest(r: ImageReference) {
    Digests.Parse(r.reference).Ok?
  }

  function Print(r: ImageReference): string {
    r.registry + "/" + r.repository + (if IsDigest(r) then "@" else ":") + r.reference
  }

  predicate ValidRegistry(registry: string) {
    registry != "" && ('.' in registry || ':' in registry || registry == "localhost")
  }

  predicate NameChar(c: char) {
    'a' <= c <= 'z' || '0' <= c <= '9' || c in {'.', '_', '-'}
  }

  predicate ValidPiece(piece: string) {
    piece != "" && forall i :: 0 <= i < |piece| ==> NameChar(piece[i])
  }

  predicate ValidRepository(repository: string) {
    && repository != "" && repository[0] != '/' && repository[|repository| - 1] != '/'
    && var pieces := Split(repository, '/');
       forall i :: 0 <= i < |pieces| ==> ValidPiece(pieces[i])
  }

  /** Repository and reference, before either is checked further. */
  function SplitReference(remainder: string): Result<(string, string), ReferenceError> {
    var at := FindLast(remainder, '@');
    if at >= 0 then
      var digest := remainder[at + 1..];
      if Digests.Parse(digest).Err? then Err(InvalidDigest) else Ok((remainder[..at], digest))
    else Ok(SplitTag(remainder, FindLast(remainder, '/') + 1))
  }

  /** The tag after the last colon behind the last slash; `latest` if there is no colon. */
  function SplitTag(remainder: string, finalSlash: nat): (string, string)
    requires finalSlash <= |remainder|
  {
    var colon := FindLast(remainder[finalSlash..], ':');
    if colon >= 0 then (remainder[..finalSlash + colon], remainder[finalSlash + colon + 1..])
    else (remainder, "latest")
  }

  /** `ImageReference::from_str`. */
  function Parse(value: string): Result<ImageReference, ReferenceError> {
    match SplitOnce(value, '/')
    case None => Err(MissingRegistry)
    case Some((registry, remainder)) =>
      if !ValidRegistry(registry) then Err(InvalidRegistry)
      else
        match SplitReference(remainder)
        case Err(error) => Err(error)
        case Ok((repository, reference)) =>
          if !ValidRepository(repository) then Err(InvalidRepository)
          else if reference == "" then Err(InvalidReference)
          else Ok(ImageReference(registry, repository, reference))
  }

  /** What makes a value printable: exactly these come out of the parser. */
  predicate Printable(r: ImageReference) {
    && ValidRegistry(r.registry) && '/' !in r.registry
    && ValidRepository(r.repository)
    && r.reference != ""
    && (IsDigest(r) || ('@' !in r.reference && '/' !in r.reference && ':' !in r.reference))
  }

  lemma {:induction false} JoinAlphabet(pieces: seq<string>, c: char)
    requires forall k :: 0 <= k < |pieces| ==> ValidPiece(pieces[k])
    ensures forall i :: 0 <= i < |Join(pieces, c)| ==> Join(pieces, c)[i] == c || NameChar(Join(pieces, c)[i])
  {
    hide NameChar;
    if |pieces| > 1 {
      JoinAlphabet(pieces[1..], c);
    } else if |pieces| == 1 {
      assert ValidPiece(pieces[0]);
    }
  }

  /** A repository name is made of name characters and slashes. */
  lemma RepositoryAlphabet(repository: string)
    requires ValidRepository(repository)
    ensures forall i :: 0 <= i < |repository| ==> repository[i] == '/' || NameChar(repository[i])
    ensures '@' !in repository && ':' !in repository
  {
    hide Split, Join;
    JoinSplit(repository, '/');
    JoinAlphabet(Split(repository, '/'), '/');
  }

  /** Printing undoes splitting, and a tag is never taken for a digest or the other way round. */
  lemma SplitReferenceIs(repository: string, reference: string)
    requires ValidRepository(repository)
    requires Digests.Parse(reference).Ok? || ('@' !in reference && '/' !in reference && ':' !in reference)
    ensures SplitReference(repository + (if Digests.Parse(reference).Ok? then "@" else ":") + reference)
            == Ok((repository, reference))
  {
    RepositoryAlphabet(repository);
    hide ValidRepository;
    if Digests.Parse(reference).Ok? {
      Digests.ParseIffPrint(reference, Digests.Parse(reference).value);
      Digests.PrintAlphabet(Digests.Parse(reference).value);
      hide Digests.Parse;
      FindLastIs(repository, '@', reference);
      var remainder := repository + ['@'] + reference;
      assert remainder == repository + "@" + reference;
      assert remainder[..|repository|] == repository && remainder[|repository| + 1..] == reference;
    } else {
      TagIs(repository, reference);
    }
  }

  lemma TagIs(repository: string, reference: string)
    requires '@' !in repository && ':' !in repository
    requires '@' !in reference && '/' !in reference && ':' !in reference
    ensures SplitReference(repository + ":" + reference) == Ok((repository, reference))
  {
    hide FindLast, SplitTag;
    var remainder := repository + ":" + reference;
    assert repository + (":" + reference) == remainder;
    FindLastWithin(repository, ":" + reference, '@');
    FindLastWithin(repository, ":" + reference, '/');
    SplitTagIs(repository, reference, FindLast(remainder, '/') + 1);
  }

  lemma SplitTagIs(repository: string, reference: string, from: nat)
    requires from <= |repository| && ':' !in reference
    ensures SplitTag(repository + ":" + reference, from) == (repository, reference)
  {
    hide FindLast;
    var remainder := repository + ":" + reference;
    assert remainder[from..] == repository[from..] + [':'] + reference;
    FindLastIs(repository[from..], ':', reference);
    assert remainder[..|repository|] == repository && remainder[|repository| + 1..] == reference;
  }

  lemma SplitReferenceGives(remainder: string)
    requires SplitReference(remainder).Ok?
    ensures var (repository, reference) := SplitReference(remainder).value;
      Digests.Parse(reference).Ok? || ('@' !in reference && '/' !in reference && ':' !in reference)
  {
    hide FindLast, Digests.Parse;
    assert Digests.Parse("latest").Err? || Digests.Parse("latest").Ok?;
  }

  /** The parser's range: what it returns is printable, and every printable value is returned. */
  lemma ParseIffPrintable(r: ImageReference)
    ensures Printable(r) <==> exists value :: Parse(value) == Ok(r)
  {
    if Printable(r) {
      RoundTrip(r);
    }
    if value :| Parse(value) == Ok(r) {
      ParsedIsPrintable(value);
    }
  }

  lemma ParsedIsPrintable(value: string)
    requires Parse(value).Ok?
    ensures Printable(Parse(value).value)
  {
    hide ValidRepository, ValidRegistry, SplitReference, Digests.Parse;
    SplitReferenceGives(SplitOnce(value, '/').value.1);
  }

  /** Printing a printable reference and reading it back gives the same reference. */
  lemma RoundTrip(r: ImageReference)
    requires Printable(r)
    ensures Parse(Print(r)) == Ok(r)
  {
    hide ValidRepository, SplitReference, Digests.Parse;
    var remainder := r.repository + (if IsDigest(r) then "@" else ":") + r.reference;
    assert Print(r) == r.registry + ['/'] + remainder;
    SplitOnceIs(r.registry, '/', remainder);
    SplitReferenceIs(r.repository, r.reference);
  }

  /** Whatever was parsed survives printing and parsing again. */
  lemma ParsePrintParse(value: string)
    requires Parse(value).Ok?
    ensures Parse(Print(Parse(value).value)) == Parse(value)
  {
    ParsedIsPrintable(value);
    RoundTrip(Parse(value).value);
  }

  lemma LatestIsMeant(repository: string)
    requires '@' !in repository && ':' !in repository
    ensures SplitReference(repository) == Ok((repository, "latest"))
  {
    hide FindLast, SplitTag;
    NoTag(repository, FindLast(repository, '/') + 1);
  }

  lemma NoTag(repository: string, from: nat)
    requires from <= |repository| && ':' !in repository
    ensures SplitTag(repository, from) == (repository, "latest")
  {
    hide FindLast;
    assert ':' !in repository[from..];
  }

  /**
   Without a tag, `latest` is meant. A first piece that has neither dot nor colon and is not
   `localhost` is no registry, so a name without a registry is refused and not guessed at.
   */
  lemma WithoutTagOrRegistry(first: string, repository: string)
    requires '/' !in first
    ensures ValidRegistry(first) && ValidRepository(repository) ==>
              Parse(first + "/" + repository) == Ok(ImageReference(first, repository, "latest"))
    ensures '.' !in first && ':' !in first && first != "localhost" ==>
              Parse(first + "/" + repository) == Err(InvalidRegistry)
    ensures Parse(first) == Err(MissingRegistry)
  {
    var value := first + ['/'] + repository;
    assert value == first + "/" + repository;
    SplitOnceIs(first, '/', repository);
    hide SplitReference, ValidRepository;
    if ValidRepository(repository) {
      RepositoryAlphabet(repository);
      LatestIsMeant(repository);
    }
  }

  /** A tag the registry accepts is never a digest, and can be written in a reference and read back. */
  lemma AcceptedTagsRoundTrip(registry: string, repository: string, tag: string)
    requires ValidRegistry(registry) && '/' !in registry && ValidRepository(repository)
    requires Registry.ValidTag(tag)
    ensures var r := ImageReference(registry, repository, tag); !IsDigest(r) && Parse(Print(r)) == Ok(r)
  {
    hide ValidRegistry, ValidRepository;
    assert ':' !in tag && '@' !in tag && '/' !in tag;
    assert Digests.Parse(tag) == Err(Digests.MissingSeparator);
    RoundTrip(ImageReference(registry, repository, tag));
  }
}
