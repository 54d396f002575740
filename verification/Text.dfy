/** The string searches the parsers are written with, each defined by what it finds. */
module Text {
  import opened Common

  /** First position of `c`, or -1. */
  function Find(s: string, c: char): (r: int)
    ensures -1 <= r < |s|
    ensures r >= 0 ==> s[r] == c
    ensures forall i :: 0 <= i < (if r == -1 then |s| else r) ==> s[i] != c
  {
    if s == [] then -1
    else if s[0] == c then 0
    else
      var rest := Find(s[1..], c);
      if rest == -1 then -1 else rest + 1
  }

  /** Last position of `c`, or -1. */
  function FindLast(s: string, c: char): (r: int)
    ensures -1 <= r < |s|
    ensures r >= 0 ==> s[r] == c
    ensures forall i :: r < i < |s| ==> s[i] != c
  {
    if s == [] then -1
    else
      var rest := FindLast(s[1..], c);
      if rest >= 0 then rest + 1 else if s[0] == c then 0 else -1
  }

  lemma FindAt(s: string, c: char, k: nat)
    requires k < |s| && s[k] == c && c !in s[..k]
    ensures Find(s, c) == k
  {
    hide Find;
    var r := Find(s, c);
  }

  lemma FindLastAt(s: string, c: char, k: nat)
    requires k < |s| && s[k] == c && c !in s[k + 1..]
    ensures FindLast(s, c) == k
  {
    hide FindLast;
    var r := FindLast(s, c);
  }

  lemma FindIs(a: string, c: char, b: string)
    requires c !in a
    ensures Find(a + [c] + b, c) == |a|
  {
    var s := a + [c] + b;
    assert s[..|a|] == a && s[|a|] == c;
    FindAt(s, c, |a|);
  }

  lemma FindLastIs(a: string, c: char, b: string)
    requires c !in b
    ensures FindLast(a + [c] + b, c) == |a|
  {
    var s := a + [c] + b;
    assert s[|a| + 1..] == b && s[|a|] == c;
    FindLastAt(s, c, |a|);
  }

  lemma FindLastWithin(a: string, b: string, c: char)
    requires c !in b
    ensures FindLast(a + b, c) < |a| && (c !in a ==> FindLast(a + b, c) == -1)
  {
    hide FindLast;
    assert forall i :: 0 <= i < |a| ==> (a + b)[i] == a[i];
    assert forall i :: |a| <= i < |a + b| ==> (a + b)[i] == b[i - |a|];
  }

  /** `split_once`. */
  function SplitOnce(s: string, c: char): (r: Option<(string, string)>)
    ensures r.None? <==> c !in s
    ensures r.Some? ==> s == r.value.0 + [c] + r.value.1 && c !in r.value.0
  {
    var at := Find(s, c);
    if at == -1 then None else Some((s[..at], s[at + 1..]))
  }

  lemma SplitOnceIs(a: string, c: char, b: string)
    requires c !in a
    ensures SplitOnce(a + [c] + b, c) == Some((a, b))
  {
    FindIs(a, c, b);
    var s := a + [c] + b;
    assert s[..|a|] == a && s[|a| + 1..] == b;
  }

  /** `split`: the pieces between the separators; never empty. */
  function Split(s: string, c: char): (pieces: seq<string>)
    ensures pieces != []
    ensures forall i :: 0 <= i < |pieces| ==> c !in pieces[i]
    decreases |s|
  {
    match SplitOnce(s, c)
    case None => [s]
    case Some((head, tail)) => [head] + Split(tail, c)
  }

  lemma SplitNothing(s: string, c: char)
    requires c !in s
    ensures Split(s, c) == [s]
  {
  }

  /** `join`. */
  function Join(pieces: seq<string>, c: char): string {
    if pieces == [] then ""
    else if |pieces| == 1 then pieces[0]
    else pieces[0] + [c] + Join(pieces[1..], c)
  }

  lemma {:induction false} SplitJoin(pieces: seq<string>, c: char)
    requires pieces != []
    requires forall i :: 0 <= i < |pieces| ==> c !in pieces[i]
    ensures Split(Join(pieces, c), c) == pieces
  {
    if |pieces| == 1 {
      assert SplitOnce(pieces[0], c).None?;
    } else {
      SplitJoin(pieces[1..], c);
      SplitOnceIs(pieces[0], c, Join(pieces[1..], c));
    }
  }

  /** The pieces of `s` between separators, put together, are `s`. */
  lemma {:induction false} JoinSplit(s: string, c: char)
    ensures Join(Split(s, c), c) == s
    decreases |s|
  {
    hide SplitOnce;
    if SplitOnce(s, c).Some? {
      JoinSplit(SplitOnce(s, c).value.1, c);
    }
  }

  /** The characters `trim` removes: the Unicode White_Space property. */
  predicate IsSpace(c: char) {
    var n := c as int;
    || 9 <= n <= 13 || n == 0x20 || n == 0x85 || n == 0xA0 || n == 0x1680 || 0x2000 <= n <= 0x200A
    || n == 0x2028 || n == 0x2029 || n == 0x202F || n == 0x205F || n == 0x3000
  }

  /** `trim`: no white space is left at either end, and a string without any is left alone. */
  function Trim(s: string): (r: string)
    ensures r != [] ==> !IsSpace(r[0]) && !IsSpace(r[|r| - 1])
    ensures s != [] && !IsSpace(s[0]) && !IsSpace(s[|s| - 1]) ==> r == s
    ensures s == [] ==> r == s
    ensures forall c :: c in r ==> c in s
  {
    if s == [] then s
    else if IsSpace(s[0]) then Trim(s[1..])
    else if IsSpace(s[|s| - 1]) then Trim(s[..|s| - 1])
    else s
  }

  lemma TrimTwice(s: string)
    ensures Trim(Trim(s)) == Trim(s)
  {
    hide Trim;
    var r := Trim(s);
    assert Trim(r) == r;
  }

  /** All white space. */
  predicate Blank(s: string) {
    forall i :: 0 <= i < |s| ==> IsSpace(s[i])
  }

  /** No white space at either end. */
  predicate Trimmed(s: string) {
    s != [] ==> !IsSpace(s[0]) && !IsSpace(s[|s| - 1])
  }

  lemma {:induction false} TrimFront(before: string, s: string)
    requires Blank(before)
    ensures Trim(before + s) == Trim(s)
  {
    if before == [] {
      assert before + s == s;
    } else {
      TrimFront(before[1..], s);
      assert (before + s)[1..] == before[1..] + s;
    }
  }

  lemma {:induction false} TrimBack(text: string, after: string)
    requires Blank(after) && Trimmed(text)
    ensures Trim(text + after) == text
  {
    var s := text + after;
    if after == [] {
      assert s == text;
    } else if text == [] {
      TrimFront(after, []);
      assert s == after + [];
    } else {
      var n := |after| - 1;
      TrimBack(text, after[..n]);
      assert s[0] == text[0] && s[|s| - 1] == after[n];
      assert s[..|s| - 1] == text + after[..n];
    }
  }

  /** White space around a text goes, and nothing else. */
  lemma TrimIs(before: string, text: string, after: string)
    requires Blank(before) && Blank(after) && Trimmed(text)
    ensures Trim(before + text + after) == text
  {
    TrimBack(text, after);
    TrimFront(before, text + after);
    assert before + text + after == before + (text + after);
  }
}
