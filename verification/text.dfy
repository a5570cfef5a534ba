/** String primitives the handlers call from Go's standard library:
    strings.TrimSpace, strings.Split, strings.TrimPrefix, decimal formatting
    (fmt.Sprint of an unsigned id) and strconv.ParseUint(s, 10, 32). */
module Text {
  import opened Wrappers

  /** unicode.IsSpace: the ASCII controls \t \n \v \f \r, space, U+0085, U+00A0,
      and the Unicode space separators. */
  predicate IsSpace(c: char) {
    || ('\U{9}' <= c <= '\U{D}')
    || c == ' '
    || c == '\U{85}'
    || c == '\U{A0}'
    || c == '\U{1680}'
    || ('\U{2000}' <= c <= '\U{200A}')
    || c == '\U{2028}'
    || c == '\U{2029}'
    || c == '\U{202F}'
    || c == '\U{205F}'
    || c == '\U{3000}'
  }

  predicate IsDigit(c: char) {
    '0' <= c <= '9'
  }

  predicate AllDigits(s: string) {
    forall i :: 0 <= i < |s| ==> IsDigit(s[i])
  }

  // ---------------------------------------------------------------- trimming

  function TrimLeft(s: string): (r: string)
    ensures |r| <= |s| && r == s[|s| - |r|..]
    ensures r == [] || !IsSpace(r[0])
    ensures forall i :: 0 <= i < |s| - |r| ==> IsSpace(s[i])
  {
    if s == [] || !IsSpace(s[0]) then s else TrimLeft(s[1..])
  }

  function TrimRight(s: string): (r: string)
    ensures |r| <= |s| && r == s[..|r|]
    ensures r == [] || !IsSpace(r[|r| - 1])
    ensures forall i :: |r| <= i < |s| ==> IsSpace(s[i])
  {
    if s == [] || !IsSpace(s[|s| - 1]) then s else TrimRight(s[..|s| - 1])
  }

  /** r is s[i..j], with only white space before i and from j on. */
  predicate TrimAt(r: string, s: string, i: nat, j: nat) {
    && i <= j <= |s|
    && r == s[i..j]
    && (forall k :: 0 <= k < i ==> IsSpace(s[k]))
    && (forall k :: j <= k < |s| ==> IsSpace(s[k]))
  }

  /** r is s with a run of leading and a run of trailing white space removed,
      and neither end of r is white space. */
  predicate IsTrimOf(r: string, s: string) {
    && (r == [] || (!IsSpace(r[0]) && !IsSpace(r[|r| - 1])))
    && exists i: nat, j: nat | i <= j <= |s| :: TrimAt(r, s, i, j)
  }

  /** strings.TrimSpace */
  function TrimSpace(s: string): (r: string)
    ensures |r| <= |s|
    ensures r == [] || (!IsSpace(r[0]) && !IsSpace(r[|r| - 1]))
  {
    TrimRight(TrimLeft(s))
  }

  /** TrimSpace removes exactly the leading and trailing white space. */
  lemma TrimSpaceIsTrim(s: string)
    ensures IsTrimOf(TrimSpace(s), s)
  {
    var l := TrimLeft(s);
    var r := TrimRight(l);
    var i := |s| - |l|;
    var j := i + |r|;
    assert r == s[i..j] by {
      assert l == s[i..];
      assert r == l[..|r|];
    }
    assert forall k :: 0 <= k < i ==> IsSpace(s[k]);
    assert forall k :: j <= k < |s| ==> IsSpace(s[k]) by {
      forall k | j <= k < |s|
        ensures IsSpace(s[k])
      {
        assert s[k] == l[k - i];
      }
    }
    assert TrimAt(r, s, i, j);
  }

  /** A trim is empty exactly when the whole string is white space. */
  lemma TrimEmptyIff(r: string, s: string, i: nat, j: nat)
    requires TrimAt(r, s, i, j) && (r == [] || !IsSpace(r[0]))
    ensures r == [] <==> forall k :: 0 <= k < |s| ==> IsSpace(s[k])
  {
    if r != [] {
      assert s[i] == r[0];
    }
  }

  /** A non-empty trim starts at the first and ends after the last
      character that is not white space, so no other trim starts later or ends earlier. */
  lemma TrimBounds(r: string, s: string, i: nat, j: nat, i2: nat, j2: nat)
    requires TrimAt(r, s, i, j) && r != [] && !IsSpace(r[0]) && !IsSpace(r[|r| - 1])
    requires i2 <= j2 <= |s|
    requires forall k :: 0 <= k < i2 ==> IsSpace(s[k])
    requires forall k :: j2 <= k < |s| ==> IsSpace(s[k])
    ensures i2 <= i && j <= j2
  {
    assert s[i] == r[0];
    assert s[j - 1] == r[|r| - 1];
  }

  /** The trim of a string is unique, so IsTrimOf characterises TrimSpace. */
  lemma TrimOfUnique(r1: string, r2: string, s: string)
    requires IsTrimOf(r1, s) && IsTrimOf(r2, s)
    ensures r1 == r2
  {
    var i1: nat, j1: nat :| TrimAt(r1, s, i1, j1);
    var i2: nat, j2: nat :| TrimAt(r2, s, i2, j2);
    TrimEmptyIff(r1, s, i1, j1);
    TrimEmptyIff(r2, s, i2, j2);
    if r1 != [] && r2 != [] {
      TrimBounds(r1, s, i1, j1, i2, j2);
      TrimBounds(r2, s, i2, j2, i1, j1);
    }
  }

  lemma TrimSpaceIdempotent(s: string)
    ensures TrimSpace(TrimSpace(s)) == TrimSpace(s)
  {
    var t := TrimSpace(s);
    assert TrimAt(t, t, 0, |t|) by {
      assert t == t[0..|t|];
    }
    TrimSpaceIsTrim(t);
    TrimOfUnique(TrimSpace(t), t, t);
  }

  // ---------------------------------------------------------------- splitting

  function IndexOf(s: string, c: char): (i: nat)
    requires c in s
    ensures i < |s| && s[i] == c && c !in s[..i]
  {
    if s[0] == c then 0 else 1 + IndexOf(s[1..], c)
  }

  /** Joins pieces with a separator; the inverse of Split. */
  function Join(parts: seq<string>, sep: char): string
    requires |parts| >= 1
  {
    if |parts| == 1 then parts[0] else parts[0] + [sep] + Join(parts[1..], sep)
  }

  /** strings.Split(s, string(sep)): the maximal separator-free pieces, at least one. */
  function Split(s: string, sep: char): (r: seq<string>)
    ensures |r| >= 1
    ensures forall i :: 0 <= i < |r| ==> sep !in r[i]
    ensures Join(r, sep) == s
    decreases |s|
  {
    if sep !in s then [s]
    else
      var i := IndexOf(s, sep);
      var rest := Split(s[i + 1..], sep);
      var r := [s[..i]] + rest;
      assert r[1..] == rest;
      assert s == s[..i] + [sep] + s[i + 1..];
      r
  }

  /** The first separator of p + [sep] + tail is the one after p, when p has none. */
  lemma FirstSeparator(p: string, sep: char, tail: string)
    requires sep !in p
    ensures sep in p + [sep] + tail
    ensures IndexOf(p + [sep] + tail, sep) == |p|
    ensures (p + [sep] + tail)[..|p|] == p && (p + [sep] + tail)[|p| + 1..] == tail
  {
    var s := p + [sep] + tail;
    assert s[|p|] == sep;
    var i := IndexOf(s, sep);
    assert forall k :: 0 <= k < |p| ==> s[k] == p[k];
    assert i >= |p| by {
      assert forall k :: 0 <= k < |p| ==> s[k] != sep;
    }
    assert i <= |p| by {
      assert sep !in s[..i];
      assert forall k :: 0 <= k < i ==> s[..i][k] == s[k];
    }
    assert s[..|p|] == p;
  }

  lemma {:induction false} SplitJoin(parts: seq<string>, sep: char)
    requires |parts| >= 1
    requires forall i :: 0 <= i < |parts| ==> sep !in parts[i]
    ensures Split(Join(parts, sep), sep) == parts
    decreases |parts|
  {
    if |parts| > 1 {
      FirstSeparator(parts[0], sep, Join(parts[1..], sep));
      SplitJoin(parts[1..], sep);
    }
  }

  /** strings.HasPrefix */
  predicate HasPrefix(s: string, prefix: string) {
    |prefix| <= |s| && s[..|prefix|] == prefix
  }

  /** strings.TrimPrefix: removes one leading copy of prefix when present. */
  function TrimPrefix(s: string, prefix: string): string {
    if HasPrefix(s, prefix) then s[|prefix|..] else s
  }

  // ---------------------------------------------------------------- decimals

  function DigitChar(d: nat): (c: char)
    requires d < 10
    ensures IsDigit(c)
  {
    (48 + d) as char
  }

  function DigitValue(c: char): (d: nat)
    requires IsDigit(c)
    ensures d < 10
  {
    c as int - 48
  }

  /** Left-to-right decimal value of a digit string, starting from acc. */
  function DecimalFrom(s: string, acc: nat): nat
    requires AllDigits(s)
    decreases |s|
  {
    if s == [] then acc else DecimalFrom(s[1..], acc * 10 + DigitValue(s[0]))
  }

  function DecimalValue(s: string): nat
    requires AllDigits(s)
  {
    DecimalFrom(s, 0)
  }

  lemma {:induction false} DecimalFromAppend(s: string, c: char, acc: nat)
    requires AllDigits(s) && IsDigit(c)
    ensures AllDigits(s + [c])
    ensures DecimalFrom(s + [c], acc) == DecimalFrom(s, acc) * 10 + DigitValue(c)
    decreases |s|
  {
    if s == [] {
      assert [c][1..] == [];
    } else {
      assert (s + [c])[1..] == s[1..] + [c];
      DecimalFromAppend(s[1..], c, acc * 10 + DigitValue(s[0]));
    }
  }

  lemma {:induction false} DecimalFromAtLeast(s: string, acc: nat)
    requires AllDigits(s)
    ensures DecimalFrom(s, acc) >= acc
    decreases |s|
  {
    if s != [] {
      DecimalFromAtLeast(s[1..], acc * 10 + DigitValue(s[0]));
    }
  }

  /** fmt.Sprint / "%d" of an unsigned integer: canonical decimal digits. */
  function NatToString(n: nat): (r: string)
    ensures |r| >= 1 && AllDigits(r)
    ensures (r[0] == '0') == (n == 0)
    ensures n == 0 ==> r == "0"
    decreases n
  {
    if n < 10 then [DigitChar(n)] else NatToString(n / 10) + [DigitChar(n % 10)]
  }

  lemma {:induction false} NatToStringValue(n: nat)
    ensures DecimalValue(NatToString(n)) == n
    decreases n
  {
    if n >= 10 {
      NatToStringValue(n / 10);
      DecimalFromAppend(NatToString(n / 10), DigitChar(n % 10), 0);
    } else {
      assert [DigitChar(n)][1..] == [];
      assert DecimalFrom([DigitChar(n)], 0) == DecimalFrom([], DigitValue(DigitChar(n)));
    }
  }

  lemma NatToStringInjective(a: nat, b: nat)
    requires NatToString(a) == NatToString(b)
    ensures a == b
  {
    NatToStringValue(a);
    NatToStringValue(b);
  }

  const MaxUint32: nat := 0xFFFF_FFFF

  /** strconv.ParseUint(s, 10, 32): no sign, no prefix, no underscores, at most 2^32 - 1. */
  function ParseUint32(s: string): Option<nat> {
    if |s| >= 1 && AllDigits(s) && DecimalValue(s) <= MaxUint32 then Some(DecimalValue(s)) else None
  }

  /** Formatting an id and parsing it back yields the id, for every 32-bit id. */
  lemma ParseFormattedId(n: nat)
    requires n <= MaxUint32
    ensures ParseUint32(NatToString(n)) == Some(n)
  {
    NatToStringValue(n);
  }

  /** A canonical digit string (no leading zero unless it is "0") is the
      formatting of its own value. */
  lemma {:induction false} CanonicalDigits(s: string)
    requires |s| >= 1 && AllDigits(s) && (s == "0" || s[0] != '0')
    ensures NatToString(DecimalValue(s)) == s
    decreases |s|
  {
    var t, c := s[..|s| - 1], s[|s| - 1];
    assert s == t + [c];
    DecimalFromAppend(t, c, 0);
    if t == [] {
      assert s == [c];
    } else {
      assert t[0] == s[0] && s != "0";
      assert DecimalFrom(t, 0) == DecimalFrom(t[1..], DigitValue(t[0]));
      DecimalFromAtLeast(t[1..], DigitValue(t[0]));
      CanonicalDigits(t);
      var v := DecimalValue(t);
      assert (v * 10 + DigitValue(c)) / 10 == v && (v * 10 + DigitValue(c)) % 10 == DigitValue(c);
    }
  }

  /** The other direction of ParseFormattedId: an id that parses and is
      written without leading zeros is exactly the formatting of its value,
      so ParseUint(s, 10, 32) and fmt.Sprint are inverse on canonical ids. */
  lemma ParsedIdFormatsBack(s: string)
    requires ParseUint32(s).Some? && (s == "0" || s[0] != '0')
    ensures NatToString(ParseUint32(s).value) == s
  {
    CanonicalDigits(s);
  }
}
