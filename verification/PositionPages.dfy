/**
  Listing an owner's positions page by page: collecting what could be read,
  cutting one page, and following the decimal cursors from page to page.
*/
module PositionPages {
  import opened Wrappers

  // ----- cursors: String(n) and Number.parseInt(s, 10)

  function Digit(d: nat): char
    requires d < 10
  {
    ['0', '1', '2', '3', '4', '5', '6', '7', '8', '9'][d]
  }

  predicate IsDigit(c: char) { '0' <= c <= '9' }

  function Value(c: char): nat
    requires IsDigit(c)
  {
    c as int - '0' as int
  }

  function Decimal(n: nat): (s: string)
    ensures s != []
  {
    if n < 10 then [Digit(n)] else Decimal(n / 10) + [Digit(n % 10)]
  }

  function DigitPrefix(s: string): string {
    if s == [] || !IsDigit(s[0]) then [] else [s[0]] + DigitPrefix(s[1..])
  }

  function FromDigits(s: string): nat
    requires forall i :: 0 <= i < |s| ==> IsDigit(s[i])
  {
    if s == [] then 0 else FromDigits(s[..|s| - 1]) * 10 + Value(s[|s| - 1])
  }

  lemma {:induction false} PrefixIsDigits(s: string)
    ensures forall i :: 0 <= i < |DigitPrefix(s)| ==> IsDigit(DigitPrefix(s)[i])
  {
    if s != [] {
      PrefixIsDigits(s[1..]);
    }
  }

  function Trimmed(s: string): string {
    if s != [] && s[0] in " \t\n\r" then Trimmed(s[1..]) else s
  }

  /** `None` is NaN: no digits after optional blanks and sign. */
  function ParseInt(s: string): Option<int> {
    var t := Trimmed(s);
    var negative := t != [] && t[0] == '-';
    var digits := DigitPrefix(if t != [] && (t[0] == '-' || t[0] == '+') then t[1..] else t);
    PrefixIsDigits(if t != [] && (t[0] == '-' || t[0] == '+') then t[1..] else t);
    var magnitude: int := FromDigits(digits);
    if digits == [] then None else Some(if negative then -magnitude else magnitude)
  }

  lemma {:induction false} DecimalIsDigits(n: nat)
    ensures forall i :: 0 <= i < |Decimal(n)| ==> IsDigit(Decimal(n)[i])
    ensures FromDigits(Decimal(n)) == n
  {
    if n >= 10 {
      DecimalIsDigits(n / 10);
      assert Decimal(n)[..|Decimal(n)| - 1] == Decimal(n / 10);
    } else {
      assert Decimal(n)[..0] == [];
    }
  }

  lemma {:induction false} AllDigitsPrefix(s: string)
    requires forall i :: 0 <= i < |s| ==> IsDigit(s[i])
    ensures DigitPrefix(s) == s
  {
    if s != [] {
      AllDigitsPrefix(s[1..]);
    }
  }

  /** A cursor written for a position reads back as that position. */
  lemma CursorRoundTrip(n: nat)
    ensures ParseInt(Decimal(n)) == Some(n)
  {
    DecimalIsDigits(n);
    AllDigitsPrefix(Decimal(n));
    assert IsDigit(Decimal(n)[0]);
  }

  // ----- one page

  datatype Page<T> = Page(positions: seq<T>, truncated: bool, nextCursor: Option<string>)

  function SafeLimit(limit: real): (size: nat)
    ensures size >= 1
  {
    if limit.Floor >= 1 then limit.Floor else 1
  }

  /** An absent or empty cursor, a cursor that is no number and a negative one all mean the start. */
  function StartIndex(cursor: Option<string>): nat {
    if cursor.None? || cursor.value == "" then 0 else
    match ParseInt(cursor.value)
    case Some(n) => if n > 0 then n else 0
    case None => 0
  }

  /** JavaScript's slice on in-range and out-of-range bounds. */
  function Slice<T>(s: seq<T>, from: nat, to: nat): seq<T>
    requires from <= to
  {
    if from >= |s| then [] else if to >= |s| then s[from..] else s[from..to]
  }

  function GetPage<T>(positions: seq<T>, limit: Option<real>, cursor: Option<string>): Page<T> {
    match limit
    case None => Page(positions, false, None)
    case Some(l) =>
      var size := SafeLimit(l);
      var pageStart := StartIndex(cursor);
      var pageEnd := pageStart + size;
      var truncated := |positions| > size && pageStart < |positions| && pageEnd < |positions|;
      Page(Slice(positions, pageStart, pageEnd), truncated, if truncated then Some(Decimal(pageEnd)) else None)
  }

  /** A limit is rounded down and at least 1; without one the page is the whole list. */
  lemma PageSizeIs(limit: real)
    ensures var size := SafeLimit(limit) as real;
            if limit >= 1.0 then size <= limit < size + 1.0 else size == 1.0
    ensures forall positions: seq<int>, cursor :: GetPage(positions, None, cursor) == Page(positions, false, None)
  {
  }

  /**
    A page holds the `size` items from the cursor's position on, as far as there are
    any; it is truncated, with a cursor for the item after it, exactly when that item
    exists.
  */
  lemma PageIs<T>(positions: seq<T>, limit: real, cursor: Option<string>)
    ensures var page := GetPage(positions, Some(limit), cursor);
            var from, size := StartIndex(cursor), SafeLimit(limit);
            && |page.positions| == (if from >= |positions| then 0 else if |positions| - from < size then |positions| - from else size)
            && (forall k :: 0 <= k < |page.positions| ==> page.positions[k] == positions[from + k])
            && (page.truncated <==> from + size < |positions|)
            && (page.truncated <==> page.nextCursor.Some?)
            && (page.nextCursor.Some? ==> ParseInt(page.nextCursor.value) == Some(from + size))
  {
    hide ParseInt, Decimal;
    CursorRoundTrip(StartIndex(cursor) + SafeLimit(limit));
  }

  // ----- cursors that were not written by a page

  ghost predicate AllBlank(s: string) {
    forall i :: 0 <= i < |s| ==> s[i] in " \t\n\r"
  }

  ghost predicate AllDigits(s: string) {
    forall i :: 0 <= i < |s| ==> IsDigit(s[i])
  }

  /** Blanks, an optional sign, digits, and anything that does not start with a digit. */
  lemma ParseIntReadsTheLeadingNumber(blanks: string, sign: string, n: nat, rest: string)
    requires AllBlank(blanks) && sign in ["", "+", "-"] && (rest != [] ==> !IsDigit(rest[0]))
    ensures ParseInt(blanks + (sign + (Decimal(n) + rest))) == Some(if sign == "-" then -(n as int) else n)
  {
    var number := Decimal(n) + rest;
    DecimalIsDigits(n);
    assert IsDigit(Decimal(n)[0]) && number[0] == Decimal(n)[0];
    LeadingDigits(Decimal(n), rest);
    var t := sign + number;
    assert sign == "" ==> t == number;
    assert sign != "" ==> t[0] == sign[0] && t[1..] == number;
    TrimmedBlanks(blanks, t);
  }

  lemma {:induction false} TrimmedBlanks(blanks: string, t: string)
    requires AllBlank(blanks) && t != [] && t[0] !in " \t\n\r"
    ensures Trimmed(blanks + t) == t
  {
    if blanks != [] {
      assert (blanks + t)[1..] == blanks[1..] + t;
      TrimmedBlanks(blanks[1..], t);
    } else {
      assert blanks + t == t;
    }
  }

  lemma {:induction false} LeadingDigits(digits: string, rest: string)
    requires AllDigits(digits) && (rest != [] ==> !IsDigit(rest[0]))
    ensures DigitPrefix(digits + rest) == digits
  {
    if digits != [] {
      assert (digits + rest)[1..] == digits[1..] + rest;
      LeadingDigits(digits[1..], rest);
    } else {
      assert digits + rest == rest;
    }
  }

  /** The start: no cursor, an empty one, a negative number, or text that starts with no number. */
  lemma StartIndexExactly(blanks: string, sign: string, n: nat, rest: string)
    requires AllBlank(blanks) && sign in ["", "+", "-"] && (rest != [] ==> !IsDigit(rest[0]))
    ensures StartIndex(None) == 0 && StartIndex(Some("")) == 0
    ensures StartIndex(Some(blanks + (sign + (Decimal(n) + rest)))) == if sign == "-" then 0 else n
    ensures rest != [] && rest[0] !in " \t\n\r+-" ==> StartIndex(Some(rest)) == 0
  {
    ParseIntReadsTheLeadingNumber(blanks, sign, n, rest);
    hide ParseInt, Decimal;
    assert blanks + (sign + (Decimal(n) + rest)) != "";
    if rest != [] && rest[0] !in " \t\n\r+-" { NotANumber(rest); }
  }

  lemma NotANumber(s: string)
    requires s != [] && !IsDigit(s[0]) && s[0] !in " \t\n\r+-"
    ensures ParseInt(s) == None
  {
  }

  /** Decimal notation, most significant digit first. */
  lemma DecimalOfTwelveHundredThirtyFour()
    ensures Decimal(1234) == "1234" && Decimal(0) == "0"
  {
    assert Decimal(1) == "1" && Decimal(12) == "12" && Decimal(123) == "123";
  }

  // ----- following the cursors

  /** All pages from a cursor on, asking again with `nextCursor` while there is one. */
  function Follow<T>(positions: seq<T>, limit: real, cursor: Option<string>): seq<Page<T>>
    decreases |positions| - StartIndex(cursor)
  {
    var page := GetPage(positions, Some(limit), cursor);
    CursorRoundTrip(StartIndex(cursor) + SafeLimit(limit));
    if page.nextCursor.None? then [page] else [page] + Follow(positions, limit, page.nextCursor)
  }

  function Joined<T>(pages: seq<Page<T>>): seq<T> {
    if pages == [] then [] else pages[0].positions + Joined(pages[1..])
  }

  /** The pages hold exactly these items; all but the last are full and truncated. */
  ghost predicate Covers<T>(pages: seq<Page<T>>, items: seq<T>, size: nat) {
    && pages != []
    && Joined(pages) == items
    && (forall k :: 0 <= k < |pages| ==> (pages[k].truncated <==> k < |pages| - 1))
    && (forall k :: 0 <= k < |pages| - 1 ==> |pages[k].positions| == size)
    && |pages[|pages| - 1].positions| <= size
  }

  lemma OneMorePage<T>(page: Page<T>, rest: seq<Page<T>>, items: seq<T>, size: nat)
    requires Covers(rest, items, size) && page.truncated && |page.positions| == size
    ensures Covers([page] + rest, page.positions + items, size)
  {
    var pages := [page] + rest;
    assert pages[1..] == rest;
    assert forall k :: 1 <= k < |pages| ==> pages[k] == rest[k - 1];
  }

  lemma LastPage<T>(page: Page<T>, size: nat)
    requires !page.truncated && |page.positions| <= size
    ensures Covers([page], page.positions, size)
  {
    assert [page][1..] == [];
  }

  lemma {:induction false} PagesFrom<T>(positions: seq<T>, limit: real, cursor: Option<string>)
    requires StartIndex(cursor) <= |positions|
    ensures Covers(Follow(positions, limit, cursor), positions[StartIndex(cursor)..], SafeLimit(limit))
    decreases |positions| - StartIndex(cursor)
  {
    hide Covers, ParseInt, Decimal, SafeLimit;
    var page := GetPage(positions, Some(limit), cursor);
    var from, size := StartIndex(cursor), SafeLimit(limit);
    CursorRoundTrip(from + size);
    if page.truncated {
      PagesFrom(positions, limit, page.nextCursor);
      OneMorePage(page, Follow(positions, limit, page.nextCursor), positions[from + size..], size);
      assert positions[from..] == positions[from..from + size] + positions[from + size..];
    } else {
      LastPage(page, size);
      assert page.positions == positions[from..];
    }
  }

  /**
    Following the cursors from the start ends, and its pages joined are the whole
    list in order; every page but the last is full and marked truncated.
  */
  lemma PagesCoverTheList<T>(positions: seq<T>, limit: real)
    ensures Covers(Follow(positions, limit, None), positions, SafeLimit(limit))
  {
    PagesFrom(positions, limit, None);
    assert positions[0..] == positions;
  }

  // ----- collecting the positions

  datatype Position = Position(pair: string, balance: nat)

  /** A settled read of one pair: malformed chain data is an error, any other failure is skipped. */
  datatype Read = Fulfilled(position: Position) | Malformed | Unreachable

  function Kept(results: seq<Read>, includeEmpty: bool): seq<Position> {
    if results == [] then [] else
    var r := results[|results| - 1];
    Kept(results[..|results| - 1], includeEmpty) +
    if r.Fulfilled? && (includeEmpty || r.position.balance > 0) then [r.position] else []
  }

  function WantedAt(results: seq<Read>, includeEmpty: bool): nat -> bool {
    (i: nat) => i < |results| && results[i].Fulfilled? && (results[i].position.balance == 0 ==> includeEmpty)
  }

  function PositionAt(results: seq<Read>): (nat, Position) -> bool {
    (i: nat, x: Position) => i < |results| && results[i].Fulfilled? && x == results[i].position
  }

  lemma KeptNext(results: seq<Read>, includeEmpty: bool, n: nat)
    requires n < |results|
    ensures Kept(results[..n + 1], includeEmpty) ==
            Kept(results[..n], includeEmpty) +
            if WantedAt(results, includeEmpty)(n) then [results[n].position] else []
  {
    assert results[..n + 1][..n] == results[..n];
  }

  /** What is kept are the positions of the reads that succeeded, the empty ones only on request, in order. */
  lemma {:induction false} KeptIs(results: seq<Read>, includeEmpty: bool, n: nat) returns (picked: seq<nat>)
    requires n <= |results|
    ensures Selects(Kept(results[..n], includeEmpty), picked, n, WantedAt(results, includeEmpty), PositionAt(results))
  {
    picked := [];
    if n > 0 {
      hide Selects;
      var last := n - 1;
      picked := KeptIs(results, includeEmpty, last);
      KeptNext(results, includeEmpty, last);
      hide Kept;
      var wanted := WantedAt(results, includeEmpty);
      SelectsNext(Kept(results[..last], includeEmpty), picked, last, wanted, PositionAt(results),
                  if wanted(last) then [results[last].position] else []);
      if wanted(last) { picked := picked + [last]; }
    }
  }

  /** `None` is the ValidationError of the first malformed read. */
  method GetPositions(results: seq<Read>, includeEmpty: bool, limit: Option<real>, cursor: Option<string>)
    returns (page: Option<Page<Position>>)
    ensures page.None? <==> Malformed in results
    ensures page.Some? ==> page.value == GetPage(Kept(results, includeEmpty), limit, cursor)
  {
    var positions := [];
    for n := 0 to |results|
      invariant Malformed !in results[..n]
      invariant positions == Kept(results[..n], includeEmpty)
    {
      assert results[..n + 1][..n] == results[..n];
      match results[n]
      case Fulfilled(pos) =>
        if includeEmpty || pos.balance > 0 {
          positions := positions + [pos];
        }
      case Malformed => return None;
      case Unreachable =>
    }
    assert results[..|results|] == results;
    page := Some(GetPage(positions, limit, cursor));
  }
}
