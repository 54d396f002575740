/** Decimal numbers in headers: what the server writes and reads, and what the client does. */
module Ranges {
  import opened Common
  import opened Text
  import opened Uploads

  const MAX_U64: int := 0xFFFF_FFFF_FFFF_FFFF

  predicate IsDigit(c: char) {
    '0' <= c <= '9'
  }

  predicate AllDigits(s: string) {
    forall i :: 0 <= i < |s| ==> IsDigit(s[i])
  }

  /** Printing a number that is not negative. */
  function Decimal(n: nat): (s: string)
    ensures s != "" && AllDigits(s)
  {
    var last := ['0' + (n % 10) as char];
    if n < 10 then last else Decimal(n / 10) + last
  }

  function Value(digits: string): (n: nat)
    requires AllDigits(digits)
  {
    if digits == [] then 0
    else 10 * Value(digits[..|digits| - 1]) + (digits[|digits| - 1] - '0') as nat
  }

  lemma {:induction false} ValueOfDecimal(n: nat)
    ensures Value(Decimal(n)) == n
  {
    var s := Decimal(n);
    if n >= 10 {
      ValueOfDecimal(n / 10);
      assert s[..|s| - 1] == Decimal(n / 10);
    } else {
      assert s[..|s| - 1] == [];
      assert Value(s[..|s| - 1]) == 0;
    }
  }

  /** Reading an integer: an optional sign, at least one digit, and no overflow. */
  function ParseInteger(s: string, signed: bool, max: nat): (r: Option<int>)
    ensures r.Some? ==> r.value <= max && if signed then 0 <= r.value + max + 1 else 0 <= r.value
  {
    var negative := signed && s != [] && s[0] == '-';
    var digits := if s != [] && (s[0] == '+' || negative) then s[1..] else s;
    if digits == [] || !AllDigits(digits) then None
    else
      var n: int := Value(digits);
      if negative then if n <= max + 1 then Some(-n) else None
      else if n <= max then Some(n) else None
  }

  function ParseI64(s: string): Option<int> { ParseInteger(s, true, MAX_I64) }

  function ParseU64(s: string): Option<int> { ParseInteger(s, false, MAX_U64) }

  lemma DecimalParses(n: nat, signed: bool, max: nat)
    ensures ParseInteger(Decimal(n), signed, max) == if n <= max then Some(n) else None
  {
    ValueOfDecimal(n);
    assert IsDigit(Decimal(n)[0]);
  }

  // ---------------------------------------------------------------- Range, from server to client

  /** The Range header of `set_upload_headers`; none while nothing has been accepted. */
  function RangeHeader(offset: int): Option<string> {
    if offset > 0 then Some("0-" + Decimal(offset - 1)) else None
  }

  /** `parse_range_offset`. The addition wraps in a release build. */
  function ParseRangeOffset(value: string): (r: Option<nat>)
    ensures r.Some? ==> r.value <= MAX_U64
  {
    match SplitOnce(Trim(value), '-')
    case None => None
    case Some((_, end)) =>
      var last := ParseU64(end);
      if last.None? then None else Some((last.value + 1) % (MAX_U64 + 1))
  }

  /** A header that is absent counts as offset 0 in a status reply. */
  function StatusOffset(header: Option<string>): (r: Option<nat>)
    ensures r.Some? ==> r.value <= MAX_U64
  {
    if header.None? then Some(0) else ParseRangeOffset(header.value)
  }

  lemma DecimalHasNo(n: nat, c: char)
    requires !IsDigit(c)
    ensures c !in Decimal(n)
  {
  }

  lemma DecimalEnds(n: nat)
    ensures var s := Decimal(n); !IsSpace(s[0]) && !IsSpace(s[|s| - 1])
  {
    var s := Decimal(n);
    assert IsDigit(s[0]) && IsDigit(s[|s| - 1]);
  }

  /** The client reads back every offset the server can write. */
  lemma RangeRoundTrip(offset: nat)
    requires offset <= MAX_I64
    ensures StatusOffset(RangeHeader(offset)) == Some(offset)
    ensures offset > 0 ==> ParseRangeOffset(RangeHeader(offset).value) == Some(offset)
  {
    hide Decimal, ParseInteger, SplitOnce, Trim;
    if offset > 0 {
      var digits := Decimal(offset - 1);
      DecimalEnds(offset - 1);
      DecimalParses(offset - 1, false, MAX_U64);
      assert "0-" == "0" + ['-'];
      var value := "0" + ['-'] + digits;
      SplitOnceIs("0", '-', digits);
      assert value[0] == '0' && value[|value| - 1] == digits[|digits| - 1];
      assert Trim(value) == value;
    }
  }

  // ---------------------------------------------------------------- Content-Range, from client to server

  const BYTES := "bytes "

  /** The number pair of `validate_content_range`, up to where the two numbers are compared. */
  function ParseContentRange(value: string): ContentRange {
    var unprefixed := if BYTES <= value then value[|BYTES|..] else value;
    match SplitOnce(Split(unprefixed, '/')[0], '-')
    case None => Malformed
    case Some((first, second)) =>
      var start, end := ParseI64(first), ParseI64(second);
      if start.None? || end.None? then Malformed else Range(start.value, end.value)
  }

  /** The pair `patch_upload` and `complete_upload` put on the wire. */
  function Pair(start: nat, end: nat): string {
    Decimal(start) + "-" + Decimal(end)
  }

  lemma PairParses(start: nat, end: nat)
    ensures SplitOnce(Pair(start, end), '-') == Some((Decimal(start), Decimal(end)))
    ensures '/' !in Pair(start, end) && !(BYTES <= Pair(start, end))
  {
    DecimalHasNo(start, '-');
    DecimalHasNo(start, '/');
    DecimalHasNo(end, '/');
    SplitOnceIs(Decimal(start), '-', Decimal(end));
    assert Decimal(start) + ['-'] + Decimal(end) == Pair(start, end);
    assert Pair(start, end)[0] == Decimal(start)[0] && BYTES[0] == 'b';
    assert IsDigit(Decimal(start)[0]);
  }

  /** The server reads what the client writes; so does the form of RFC 9110, with unit and total. */
  lemma ContentRangeRoundTrip(start: nat, end: nat, total: string)
    requires start <= MAX_I64 && end <= MAX_I64
    ensures ParseContentRange(Pair(start, end)) == Range(start, end)
    ensures ParseContentRange(BYTES + Pair(start, end) + "/" + total) == Range(start, end)
  {
    hide Pair, Decimal, ParseInteger, SplitOnce, Split;
    var pair := Pair(start, end);
    PairParses(start, end);
    DecimalParses(start, true, MAX_I64);
    DecimalParses(end, true, MAX_I64);
    SplitNothing(pair, '/');
    var long := BYTES + pair + "/" + total;
    assert long[|BYTES|..] == pair + ['/'] + total;
    SplitFirst(pair, '/', total);
  }

  lemma SplitFirst(head: string, c: char, tail: string)
    requires c !in head
    ensures Split(head + [c] + tail, c)[0] == head
  {
    SplitOnceIs(head, c, tail);
  }

  /** A start that parses is never negative: its sign would have been the separator. */
  lemma StartIsNatural(value: string)
    ensures ParseContentRange(value).Range? ==> 0 <= ParseContentRange(value).start <= MAX_I64
  {
    hide Split, SplitOnce;
  }

  /** A client's chunk gets past the range check exactly when it starts at the accepted offset. */
  lemma AcceptedAtItsOffset(start: nat, length: nat, expected: nat)
    requires length > 0 && start + length - 1 <= MAX_I64
    ensures RangeRefusal(ParseContentRange(Pair(start, start + length - 1)), expected, length)
            == if start == expected then None else Some(WrongOffset)
  {
    hide Pair, ParseContentRange;
    ContentRangeRoundTrip(start, start + length - 1, "");
  }
}
