/** Page arithmetic of the two SearchArticles handlers: the page query parameter
    goes through strconv.Atoi (its error discarded), is raised to at least 1, and
    the offset (page - 1) * 20 is computed in Go's 64-bit int. */
module Pagination {
  import opened Text

  const MaxInt64: int := 0x7FFF_FFFF_FFFF_FFFF
  const MinInt64: int := -0x8000_0000_0000_0000
  const MaxUint64: nat := 0xFFFF_FFFF_FFFF_FFFF
  const PageSize: nat := 20

  /** Outcome of strconv.ParseUint's digit loop (base 10, 64 bits). */
  datatype Scan = SyntaxError | RangeError | Value(n: nat)

  /** ParseUint's loop: a non-digit seen before any overflow is a syntax error,
      an overflow seen before any non-digit is a range error. */
  function ScanFrom(s: string, acc: nat): (r: Scan)
    requires acc <= MaxUint64
    ensures r.Value? ==> AllDigits(s) && acc <= r.n <= MaxUint64
    ensures AllDigits(s) ==> !r.SyntaxError?
    decreases |s|
  {
    if s == [] then Value(acc)
    else if !IsDigit(s[0]) then SyntaxError
    else if acc >= MaxUint64 / 10 + 1 then RangeError
    else
      var next := acc * 10 + DigitValue(s[0]);
      if next > MaxUint64 then RangeError else ScanFrom(s[1..], next)
  }

  function ScanUint(s: string): Scan {
    if s == [] then SyntaxError else ScanFrom(s, 0)
  }

  /** ParseInt's handling of the unsigned scan for a non-negative number. */
  function Positive(sc: Scan): int {
    match sc
    case SyntaxError => 0
    case RangeError => MaxInt64
    case Value(n) => if n > MaxInt64 then MaxInt64 else n
  }

  /** ParseInt's handling of the unsigned scan after a minus sign. */
  function Negative(sc: Scan): int {
    match sc
    case SyntaxError => 0
    case RangeError => MinInt64
    case Value(n) => if n > -MinInt64 then MinInt64 else -(n as int)
  }

  /** The value strconv.Atoi returns, including the clamped value it returns
      together with a range error. */
  function Atoi(s: string): (v: int)
    ensures MinInt64 <= v <= MaxInt64
  {
    if s == [] then 0
    else if s[0] == '+' then Positive(ScanUint(s[1..]))
    else if s[0] == '-' then Negative(ScanUint(s[1..]))
    else Positive(ScanUint(s))
  }

  /** On a digit string the scan is the decimal value, or a range error exactly
      when that value does not fit in 64 bits. */
  lemma {:induction false} ScanDigits(s: string, acc: nat)
    requires AllDigits(s) && acc <= MaxUint64
    ensures DecimalFrom(s, acc) >= acc
    ensures ScanFrom(s, acc) == if DecimalFrom(s, acc) <= MaxUint64 then Value(DecimalFrom(s, acc)) else RangeError
    decreases |s|
  {
    if s != [] {
      var next := acc * 10 + DigitValue(s[0]);
      if next <= MaxUint64 {
        ScanDigits(s[1..], next);
      } else {
        DecimalFromAtLeast(s[1..], next);
      }
    }
  }

  /** Atoi agrees with the decimal value of every unsigned number that fits in an int. */
  lemma AtoiOfDecimal(s: string)
    requires |s| >= 1 && AllDigits(s) && DecimalValue(s) <= MaxInt64
    ensures Atoi(s) == DecimalValue(s)
  {
    ScanDigits(s, 0);
  }

  /** A digit string too large for an int reads as the largest int. */
  lemma AtoiSaturates(s: string)
    requires |s| >= 1 && AllDigits(s) && DecimalValue(s) > MaxInt64
    ensures Atoi(s) == MaxInt64
  {
    ScanDigits(s, 0);
  }

  /** Go's signed 64-bit wrap-around: the int64 congruent to x modulo 2^64. */
  function Wrap64(x: int): (r: int)
    ensures MinInt64 <= r <= MaxInt64
    ensures (r - x) % 0x1_0000_0000_0000_0000 == 0
    ensures MinInt64 <= x <= MaxInt64 ==> r == x
  {
    (x - MinInt64) % 0x1_0000_0000_0000_0000 + MinInt64
  }

  /** The page the handler uses: Atoi of the parameter, raised to 1. */
  function PageNumber(param: string): (page: int)
    ensures 1 <= page <= MaxInt64
    ensures Atoi(param) >= 1 ==> page == Atoi(param)
    ensures Atoi(param) < 1 ==> page == 1
  {
    var page := Atoi(param);
    if page < 1 then 1 else page
  }

  /** offset := (page - 1) * limit, in 64-bit arithmetic. */
  function Offset(page: int): int
    requires 1 <= page <= MaxInt64
  {
    Wrap64((page - 1) * PageSize)
  }

  /** query.Offset(offset).Limit(limit): GORM emits no OFFSET clause for a
      non-positive offset. */
  function Window<T>(rows: seq<T>, offset: int, limit: nat): (r: seq<T>)
    ensures |r| <= limit
    ensures offset <= 0 ==> r == rows[..if |rows| < limit then |rows| else limit]
    ensures 0 < offset <= |rows| ==> r == rows[offset..][..if |rows| - offset < limit then |rows| - offset else limit]
    ensures offset > |rows| ==> r == []
  {
    var start := if offset <= 0 then 0 else if offset > |rows| then |rows| else offset;
    var rest := rows[start..];
    rest[..if |rest| < limit then |rest| else limit]
  }

  /** The page of ranked matches the handler returns for a page parameter. */
  function SearchPage<T>(ranked: seq<T>, pageParam: string): (r: seq<T>)
    ensures |r| <= PageSize
  {
    Window(ranked, Offset(PageNumber(pageParam)), PageSize)
  }

  /** Every page parameter below 1, unparsable ones included, gives page 1. */
  lemma PageBelowOneIsFirstPage<T>(ranked: seq<T>, pageParam: string)
    requires Atoi(pageParam) < 1
    ensures SearchPage(ranked, pageParam) == SearchPage(ranked, "1")
  {
    assert "1"[0] == '1' && "1"[1..] == [];
    assert ScanFrom("1", 0) == ScanFrom([], 1);
  }

  /** A parameter without a digit, the empty one included, is a syntax error
      for Atoi, which then returns 0, so the handler uses page 1. */
  lemma NoDigitReadsZero(s: string)
    requires forall i :: 0 <= i < |s| ==> !IsDigit(s[i])
    ensures Atoi(s) == 0 && PageNumber(s) == 1
  {
    if s != [] && (s[0] == '+' || s[0] == '-') {
      assert s[1..] == [] || !IsDigit(s[1..][0]);
    }
  }

  /** Whenever (page - 1) * 20 fits in an int, the handler returns rows
      (page - 1) * 20 up to at most 20 further rows. */
  lemma SearchPageIsWindow<T>(ranked: seq<T>, pageParam: string)
    requires (PageNumber(pageParam) - 1) * PageSize <= MaxInt64
    ensures var off := (PageNumber(pageParam) - 1) * PageSize;
            SearchPage(ranked, pageParam)
            == if off >= |ranked| then [] else ranked[off..][..if |ranked| - off < PageSize then |ranked| - off else PageSize]
  {
  }

  /** The largest page wraps the offset round to -40, which GORM ignores, so a
      huge page number shows the first page again. */
  lemma HugePageWrapsToFirstPage<T>(ranked: seq<T>, pageParam: string)
    requires |pageParam| >= 1 && AllDigits(pageParam) && DecimalValue(pageParam) > MaxInt64
    ensures Offset(PageNumber(pageParam)) == -40
    ensures SearchPage(ranked, pageParam) == SearchPage(ranked, "1")
  {
    AtoiSaturates(pageParam);
    assert "1"[0] == '1' && "1"[1..] == [];
    assert ScanFrom("1", 0) == ScanFrom([], 1);
  }
}
