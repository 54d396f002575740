/** Listing tags page by page (OCI Distribution Specification v1.1, section "Listing Tags"). */
module Pagination {
  import opened Common
  import opened Ranges

  type Order = (string, string) -> bool

  /** What the proof needs of the database's collation. */
  ghost predicate StrictTotal(less: Order) {
    && (forall a :: !less(a, a))
    && (forall a, b :: a != b ==> less(a, b) || less(b, a))
    && (forall a, b, c :: less(a, b) && less(b, c) ==> less(a, c))
    && (forall a :: a != "" ==> less("", a))
  }

  /** The page size asked for: 100 unless a number is given, and always between 1 and 1000. */
  function PageSize(n: Option<string>): (limit: nat)
    ensures 1 <= limit <= 1000
    ensures n.None? || ParseI64(n.value).None? ==> limit == 100
    ensures n.Some? && ParseI64(n.value).Some? ==>
              var asked := ParseI64(n.value).value;
              (1 <= asked <= 1000 ==> limit == asked) && (asked < 1 ==> limit == 1) && (asked > 1000 ==> limit == 1000)
  {
    var asked := if n.Some? && ParseI64(n.value).Some? then ParseI64(n.value).value else 100;
    if asked < 1 then 1 else if asked > 1000 then 1000 else asked
  }

  ghost predicate IsLeast(tags: set<string>, less: Order, m: string) {
    m in tags && forall t :: t in tags && t != m ==> less(m, t)
  }

  lemma {:induction false} LeastExists(tags: set<string>, less: Order)
    requires StrictTotal(less) && tags != {}
    ensures exists m :: IsLeast(tags, less, m)
    decreases |tags|
  {
    var t :| t in tags;
    var rest := tags - {t};
    if rest == {} {
      assert tags == {t};
      assert IsLeast(tags, less, t);
    } else {
      LeastExists(rest, less);
      var m :| IsLeast(rest, less, m);
      assert IsLeast(tags, less, if less(m, t) then m else t);
    }
  }

  /** `ORDER BY name`. */
  ghost function Ascending(tags: set<string>, less: Order): (s: seq<string>)
    requires StrictTotal(less)
    ensures |s| == |tags|
    ensures forall t :: t in s <==> t in tags
    decreases |tags|
  {
    if tags == {} then []
    else
      LeastExists(tags, less);
      var m :| IsLeast(tags, less, m);
      [m] + Ascending(tags - {m}, less)
  }

  /** `WHERE name > last`. */
  ghost function After(tags: set<string>, less: Order, last: string): set<string> {
    set t | t in tags && less(last, t)
  }

  /** The rows of the query. */
  ghost function Rows(tags: set<string>, less: Order, last: string, limit: nat): seq<string>
    requires StrictTotal(less)
  {
    var found := Ascending(After(tags, less, last), less);
    if |found| <= limit then found else found[..limit]
  }

  datatype Page = Page(tags: seq<string>, next: Option<(string, string)>)

  /** `list_tags`: one row more than the page tells whether there is a next page. */
  ghost function ListTags(tags: set<string>, less: Order, n: Option<string>, last: Option<string>): (page: Page)
    requires StrictTotal(less)
    ensures |page.tags| <= PageSize(n)
  {
    var limit := PageSize(n);
    var rows := Rows(tags, less, if last.Some? then last.value else "", limit + 1);
    if |rows| > limit then Page(rows[..limit], Some((Decimal(limit), rows[limit - 1]))) else Page(rows, None)
  }

  lemma AscendingParts(tags: set<string>, less: Order)
    requires StrictTotal(less) && tags != {}
    ensures var s := Ascending(tags, less); IsLeast(tags, less, s[0]) && s == [s[0]] + Ascending(tags - {s[0]}, less)
  {
    hide StrictTotal, IsLeast;
  }

  lemma {:induction false} AscendingIsSorted(tags: set<string>, less: Order)
    requires StrictTotal(less)
    ensures var s := Ascending(tags, less); forall i, j :: 0 <= i < j < |s| ==> less(s[i], s[j])
    decreases |tags|
  {
    hide StrictTotal, Ascending;
    var s := Ascending(tags, less);
    if tags != {} {
      AscendingParts(tags, less);
      var rest := Ascending(tags - {s[0]}, less);
      AscendingIsSorted(tags - {s[0]}, less);
      forall i, j | 0 <= i < j < |s|
        ensures less(s[i], s[j])
      {
        assert s[j] == rest[j - 1] && s[j] in rest;
        assert i > 0 ==> s[i] == rest[i - 1];
      }
    }
  }

  /** What comes after the k-th tag is the rest of the list. */
  lemma {:induction false} AfterIsRest(tags: set<string>, less: Order, k: nat)
    requires StrictTotal(less) && 0 < k <= |tags|
    ensures var s := Ascending(tags, less); Ascending(After(tags, less, s[k - 1]), less) == s[k..]
    decreases k
  {
    var s := Ascending(tags, less);
    var rest := tags - {s[0]};
    AscendingParts(tags, less);
    assert s[1..] == Ascending(rest, less);
    if k == 1 {
      assert After(tags, less, s[0]) == rest;
    } else {
      AfterIsRest(rest, less, k - 1);
      assert s[1..][k - 2] == s[k - 1] && s[1..][k - 1..] == s[k..];
      assert s[k - 1] in rest;
      assert After(tags, less, s[k - 1]) == After(rest, less, s[k - 1]);
    }
  }

  lemma AfterAfter(tags: set<string>, less: Order, last: string, t: string)
    requires StrictTotal(less) && less(last, t)
    ensures After(After(tags, less, last), less, t) == After(tags, less, t)
  {
  }

  /** The number in a next link asks for pages of the same size. */
  lemma LinkKeepsSize(limit: nat)
    requires 1 <= limit <= 1000
    ensures PageSize(Some(Decimal(limit))) == limit
  {
    DecimalParses(limit, true, MAX_I64);
  }

  /** A page and what its next link leads to are, together, what was asked for. */
  lemma PageThenRest(tags: set<string>, less: Order, n: Option<string>, last: Option<string>)
    requires StrictTotal(less)
    ensures var from := if last.Some? then last.value else "";
            var found := Ascending(After(tags, less, from), less);
            var page := ListTags(tags, less, n, last);
      match page.next
      case None => page.tags == found
      case Some((size, after)) =>
        && PageSize(Some(size)) == PageSize(n) == |page.tags|
        && page.tags + Ascending(After(tags, less, after), less) == found
        && |After(tags, less, after)| < |After(tags, less, from)|
  {
    hide StrictTotal, Ascending, PageSize, ParseI64;
    var from := if last.Some? then last.value else "";
    var found := Ascending(After(tags, less, from), less);
    var limit := PageSize(n);
    if |found| > limit {
      var rows := found[..limit + 1];
      var after := found[limit - 1];
      assert Rows(tags, less, from, limit + 1) == rows by { assert |found| == limit + 1 ==> rows == found; }
      assert rows[..limit] == found[..limit] && rows[limit - 1] == after;
      assert after in found;
      LinkKeepsSize(limit);
      AfterIsRest(After(tags, less, from), less, limit);
      AfterAfter(tags, less, from, after);
      assert found[..limit] + found[limit..] == found;
    }
  }

  /** All pages from `last` on, following the next links to the end. */
  ghost function Follow(tags: set<string>, less: Order, n: Option<string>, last: Option<string>): seq<string>
    requires StrictTotal(less)
    decreases |After(tags, less, if last.Some? then last.value else "")|
  {
    var page := ListTags(tags, less, n, last);
    PageThenRest(tags, less, n, last);
    match page.next
    case None => page.tags
    case Some((size, after)) => page.tags + Follow(tags, less, Some(size), Some(after))
  }

  lemma {:induction false} FollowFinds(tags: set<string>, less: Order, n: Option<string>, last: Option<string>)
    requires StrictTotal(less)
    ensures Follow(tags, less, n, last) == Ascending(After(tags, less, if last.Some? then last.value else ""), less)
    decreases |After(tags, less, if last.Some? then last.value else "")|
  {
    PageThenRest(tags, less, n, last);
    var page := ListTags(tags, less, n, last);
    if page.next.Some? {
      FollowFinds(tags, less, Some(page.next.value.0), Some(page.next.value.1));
    }
    hide ListTags, Ascending;
  }

  /**
   Whatever page size is asked for, following the next links from the start ends, and the pages
   put together are the tags in order, each exactly once.
   */
  lemma PagesListEveryTagOnce(tags: set<string>, less: Order, n: Option<string>)
    requires StrictTotal(less) && "" !in tags
    ensures var listed := Follow(tags, less, n, None);
      && listed == Ascending(tags, less)
      && (forall t :: t in tags <==> t in listed)
      && (forall i, j :: 0 <= i < j < |listed| ==> less(listed[i], listed[j]) && listed[i] != listed[j])
  {
    FollowFinds(tags, less, n, None);
    assert After(tags, less, "") == tags;
    AscendingIsSorted(tags, less);
  }
}
