/** The pieces of the Java standard library that the index and the query
    engine lean on, written out so that their edge cases are part of the
    model: 32-bit `int` increment, `String.trim`, `toLowerCase`, `indexOf` /
    `contains`, `String.split` with its rule for empty pieces, and
    `Integer.parseInt` / `Integer.toString`. */
module JavaText {

  datatype Option<T> = None | Some(value: T)

  const MinInt32: int := -0x8000_0000
  const MaxInt32: int := 0x7fff_ffff

  /** A Java `int`. */
  type Int32 = x: int | -0x8000_0000 <= x <= 0x7fff_ffff

  /** Java's `i + 1` on an `int`: two's-complement, so it wraps at the top. */
  function Succ(i: Int32): (r: Int32)
    ensures r == (i + 1 - MinInt32) % 0x1_0000_0000 + MinInt32
    ensures i < MaxInt32 ==> r == i + 1
  {
    if i == MaxInt32 then MinInt32 else i + 1
  }

  // ---------------------------------------------------------------------
  // String.trim: strips every character up to U+0020 at both ends.

  /** Index of the first character that `trim` keeps, searching from `k`. */
  function TrimLo(s: string, k: nat): (lo: nat)
    requires k <= |s|
    ensures k <= lo <= |s|
    ensures forall j :: k <= j < lo ==> s[j] <= ' '
    ensures lo < |s| ==> s[lo] > ' '
    decreases |s| - k
  {
    if k < |s| && s[k] <= ' ' then TrimLo(s, k + 1) else k
  }

  /** One past the last character that `trim` keeps, no lower than `lo`. */
  function TrimHi(s: string, lo: nat, hi: nat): (r: nat)
    requires lo <= hi <= |s|
    ensures lo <= r <= hi
    ensures forall j :: r <= j < hi ==> s[j] <= ' '
    ensures r > lo ==> s[r - 1] > ' '
    decreases hi
  {
    if hi > lo && s[hi - 1] <= ' ' then TrimHi(s, lo, hi - 1) else hi
  }

  function Trim(s: string): (r: string)
    ensures |r| <= |s|
    ensures r == [] || (r[0] > ' ' && r[|r| - 1] > ' ')
  {
    var lo := TrimLo(s, 0);
    s[lo..TrimHi(s, lo, |s|)]
  }

  /** A string that `trim` leaves alone. */
  predicate IsTrimmed(s: string) {
    s == [] || (s[0] > ' ' && s[|s| - 1] > ' ')
  }

  lemma TrimFixesTrimmed(s: string)
    requires IsTrimmed(s)
    ensures Trim(s) == s
  {
    var lo := TrimLo(s, 0);
    assert lo == 0;
    if s != [] {
      assert TrimHi(s, 0, |s|) == |s|;
    }
  }

  lemma TrimIsTrimmed(s: string)
    ensures IsTrimmed(Trim(s)) && Trim(Trim(s)) == Trim(s)
  {
    TrimFixesTrimmed(Trim(s));
  }

  // ---------------------------------------------------------------------
  // toLowerCase, on the ASCII letters.

  function LowerChar(c: char): char {
    if 'A' <= c <= 'Z' then (c as int + 32) as char else c
  }

  function Lower(s: string): (r: string)
    ensures |r| == |s|
    ensures forall k :: 0 <= k < |s| ==> r[k] == LowerChar(s[k])
    decreases |s|
  {
    if s == [] then [] else [LowerChar(s[0])] + Lower(s[1..])
  }

  // ---------------------------------------------------------------------
  // indexOf and contains.

  ghost predicate OccursAt(s: string, sub: string, k: int) {
    0 <= k && k + |sub| <= |s| && s[k..k + |sub|] == sub
  }

  /** `s.indexOf(sub, from)`: the first occurrence at or after `from`, or -1. */
  function IndexOfFrom(s: string, sub: string, from: nat): (r: int)
    ensures r == -1 || (from <= r && OccursAt(s, sub, r))
    ensures forall k :: from <= k && (r == -1 || k < r) ==> !OccursAt(s, sub, k)
    decreases |s| - from
  {
    if from + |sub| > |s| then -1
    else if s[from..from + |sub|] == sub then from
    else IndexOfFrom(s, sub, from + 1)
  }

  function IndexOf(s: string, sub: string): (r: int)
    ensures r == -1 || OccursAt(s, sub, r)
    ensures forall k :: 0 <= k && (r == -1 || k < r) ==> !OccursAt(s, sub, k)
  {
    IndexOfFrom(s, sub, 0)
  }

  predicate Contains(s: string, sub: string) {
    IndexOf(s, sub) >= 0
  }

  /** A string lacking one of `sub`'s characters does not contain `sub`. */
  lemma AbsentChar(s: string, sub: string, c: char)
    requires c in sub && c !in s
    ensures !Contains(s, sub)
  {
  }

  /** One mismatching character rules out an occurrence at `k`. */
  lemma MismatchAt(s: string, sub: string, k: nat, m: nat)
    requires m < |sub| && k + m < |s| && s[k + m] != sub[m]
    ensures !OccursAt(s, sub, k)
  {
  }

  /** An occurrence at `k` with none before it is the first. */
  lemma IndexOfIs(s: string, sub: string, k: nat)
    requires OccursAt(s, sub, k)
    requires forall j :: 0 <= j < k ==> !OccursAt(s, sub, j)
    ensures IndexOf(s, sub) == k
  {
  }

  /** An occurrence inside a slice is an occurrence in the whole string. */
  lemma ContainsInSlice(s: string, lo: nat, hi: nat, sub: string)
    requires lo <= hi <= |s|
    requires Contains(s[lo..hi], sub)
    ensures Contains(s, sub)
  {
    var k := IndexOf(s[lo..hi], sub);
    assert OccursAt(s[lo..hi], sub, k);
    assert s[lo..hi][k..k + |sub|] == s[lo + k..lo + k + |sub|];
    assert OccursAt(s, sub, lo + k);
  }

  // ---------------------------------------------------------------------
  // String.split. With limit 0, Java drops every trailing empty piece, and a
  // string in which the separator never occurs comes back whole, so "" splits
  // to [""] while " " split on ' ' gives [].

  /** Drops the trailing empty pieces. */
  function DropTrailingEmpty(pieces: seq<string>): (r: seq<string>)
    ensures r <= pieces
    ensures r == [] || r[|r| - 1] != []
    ensures forall k :: |r| <= k < |pieces| ==> pieces[k] == []
    decreases |pieces|
  {
    if |pieces| > 0 && pieces[|pieces| - 1] == [] then DropTrailingEmpty(pieces[..|pieces| - 1])
    else pieces
  }

  /** The pieces of `s` between the occurrences of `c`, empty ones included. */
  function SplitAt(s: string, c: char): (pieces: seq<string>)
    ensures |pieces| >= 1
    ensures forall p :: p in pieces ==> c !in p
    decreases |s|
  {
    if s == [] then [[]]
    else
      var rest := SplitAt(s[1..], c);
      if s[0] == c then [[]] + rest else [[s[0]] + rest[0]] + rest[1..]
  }

  /** `s.split(c)` for a one-character separator. */
  function SplitChar(s: string, c: char): seq<string> {
    if s == [] then [[]] else DropTrailingEmpty(SplitAt(s, c))
  }

  function JoinWith(parts: seq<string>, sep: string): string
    decreases |parts|
  {
    if |parts| == 0 then []
    else if |parts| == 1 then parts[0]
    else parts[0] + sep + JoinWith(parts[1..], sep)
  }

  lemma {:induction false} SplitAtFree(p: string, c: char)
    requires c !in p
    ensures SplitAt(p, c) == [p]
    decreases |p|
  {
    if p != [] {
      SplitAtFree(p[1..], c);
      assert [p[0]] + p[1..] == p;
    }
  }

  lemma {:induction false} SplitAtPrefix(p: string, c: char, t: string)
    requires c !in p
    ensures SplitAt(p + [c] + t, c) == [p] + SplitAt(t, c)
    decreases |p|
  {
    if p == [] {
      assert p + [c] + t == [c] + t;
      assert ([c] + t)[1..] == t;
    } else {
      var s := p + [c] + t;
      assert s[1..] == p[1..] + [c] + t;
      SplitAtPrefix(p[1..], c, t);
      assert [p[0]] + p[1..] == p;
    }
  }

  /** Split undoes a join on a character none of the parts contains. */
  lemma {:induction false} SplitJoin(parts: seq<string>, c: char)
    requires |parts| >= 1
    requires forall p :: p in parts ==> c !in p
    ensures SplitAt(JoinWith(parts, [c]), c) == parts
    decreases |parts|
  {
    if |parts| == 1 {
      SplitAtFree(parts[0], c);
    } else {
      SplitJoin(parts[1..], c);
      SplitAtPrefix(parts[0], c, JoinWith(parts[1..], [c]));
      assert [parts[0]] + parts[1..] == parts;
    }
  }

  /** A string that holds `c` has at least two pieces. */
  lemma {:induction false} SplitAtHolds(s: string, c: char)
    requires c in s
    ensures |SplitAt(s, c)| >= 2
    decreases |s|
  {
    if s[0] != c {
      SplitAtHolds(s[1..], c);
    }
  }

  /** A string that does not end in `c` has a non-empty last piece. */
  lemma {:induction false} SplitAtLastNonEmpty(s: string, c: char)
    requires s != [] && s[|s| - 1] != c
    ensures SplitAt(s, c)[|SplitAt(s, c)| - 1] != []
    decreases |s|
  {
    if |s| > 1 {
      SplitAtLastNonEmpty(s[1..], c);
    }
  }

  /** Splitting a string that holds `c` but does not end in it drops nothing
      and gives at least two pieces. */
  lemma SplitCharKeepsAll(s: string, c: char)
    requires c in s && s[|s| - 1] != c
    ensures SplitChar(s, c) == SplitAt(s, c) && |SplitChar(s, c)| >= 2
  {
    SplitAtHolds(s, c);
    SplitAtLastNonEmpty(s, c);
  }

  /** Java's `\s`: space, tab, newline, vertical tab, form feed, return. */
  predicate IsSpace(c: char) {
    c == ' ' || '\t' <= c <= '\r'
  }

  /** End of the run of `\s` characters that starts at `k`. */
  function SpaceEnd(s: string, k: nat): (e: nat)
    requires k <= |s|
    ensures k <= e <= |s|
    ensures forall j :: k <= j < e ==> IsSpace(s[j])
    ensures e < |s| ==> !IsSpace(s[e])
    decreases |s| - k
  {
    if k < |s| && IsSpace(s[k]) then SpaceEnd(s, k + 1) else k
  }

  /** End of the run of non-`\s` characters that starts at `k`. */
  function WordEnd(s: string, k: nat): (e: nat)
    requires k <= |s|
    ensures k <= e <= |s|
    ensures forall j :: k <= j < e ==> !IsSpace(s[j])
    ensures e < |s| ==> IsSpace(s[e])
    decreases |s| - k
  {
    if k < |s| && !IsSpace(s[k]) then WordEnd(s, k + 1) else k
  }

  /** The pieces of `s` between maximal runs of `\s`. */
  function SplitAtSpaces(s: string): (pieces: seq<string>)
    ensures |pieces| >= 1
    ensures forall p :: p in pieces ==> forall j :: 0 <= j < |p| ==> !IsSpace(p[j])
    decreases |s|
  {
    var e := WordEnd(s, 0);
    if e == |s| then [s] else [s[..e]] + SplitAtSpaces(s[SpaceEnd(s, e)..])
  }

  /** `s.split("\\s+")`. */
  function SplitWhitespace(s: string): seq<string> {
    if s == [] then [[]] else DropTrailingEmpty(SplitAtSpaces(s))
  }

  /** First index at or after `k` holding `c`, or |s|. */
  function CharEnd(s: string, k: nat, c: char): (e: nat)
    requires k <= |s|
    ensures k <= e <= |s|
    ensures forall j :: k <= j < e ==> s[j] != c
    ensures e < |s| ==> s[e] == c
    decreases |s| - k
  {
    if k < |s| && s[k] != c then CharEnd(s, k + 1, c) else k
  }

  /** The pieces of `s` between the matches of `,\s*`. */
  function SplitAtCommas(s: string): (pieces: seq<string>)
    ensures |pieces| >= 1
    ensures forall p :: p in pieces ==> ',' !in p
    decreases |s|
  {
    var e := CharEnd(s, 0, ',');
    if e == |s| then [s] else [s[..e]] + SplitAtCommas(s[SpaceEnd(s, e + 1)..])
  }

  /** `s.split(",\\s*")`. */
  function SplitCommaList(s: string): seq<string> {
    if s == [] then [[]] else DropTrailingEmpty(SplitAtCommas(s))
  }

  // ---------------------------------------------------------------------
  // Integer.parseInt and Integer.toString, on ASCII digits.

  predicate IsDigit(c: char) {
    '0' <= c <= '9'
  }

  predicate AllDigits(s: string) {
    forall k :: 0 <= k < |s| ==> IsDigit(s[k])
  }

  function DecimalValue(s: string): nat
    requires AllDigits(s)
    decreases |s|
  {
    if s == [] then 0
    else DecimalValue(s[..|s| - 1]) * 10 + (s[|s| - 1] as int - '0' as int)
  }

  /** `Integer.parseInt(s)`: None where Java throws NumberFormatException. */
  function ParseInt(s: string): (r: Option<Int32>)
    ensures r.Some? ==> s != []
  {
    if s == [] then None
    else if s[0] == '-' || s[0] == '+' then
      var digits := s[1..];
      if digits == [] || !AllDigits(digits) then None
      else
        var v: int := if s[0] == '-' then 0 - DecimalValue(digits) else DecimalValue(digits);
        if MinInt32 <= v <= MaxInt32 then Some(v) else None
    else if AllDigits(s) then
      var v := DecimalValue(s);
      if v <= MaxInt32 then Some(v) else None
    else None
  }

  function DigitChar(d: nat): (c: char)
    requires d < 10
    ensures IsDigit(c) && c as int - '0' as int == d
  {
    ('0' as int + d) as char
  }

  /** Decimal digits of `n`, most significant first, with no leading zero. */
  function NatToString(n: nat): (s: string)
    ensures |s| >= 1 && AllDigits(s) && DecimalValue(s) == n
    decreases n
  {
    if n < 10 then [DigitChar(n)]
    else
      var s := NatToString(n / 10) + [DigitChar(n % 10)];
      assert s[..|s| - 1] == NatToString(n / 10);
      s
  }

  /** `Integer.toString(i)`. */
  function IntToString(i: int): (s: string)
    ensures |s| >= 1
  {
    if i < 0 then "-" + NatToString(-i) else NatToString(i)
  }

  /** A number's text is a minus sign or digits, character by character. */
  lemma IntToStringChars(i: int)
    ensures forall k :: 0 <= k < |IntToString(i)| ==> IsDigit(IntToString(i)[k]) || IntToString(i)[k] == '-'
  {
    var s := IntToString(i);
    if i < 0 {
      assert forall k :: 1 <= k < |s| ==> s[k] == NatToString(-i)[k - 1];
    }
  }

  /** parseInt reads back what toString writes. */
  lemma ParseIntToString(i: Int32)
    ensures ParseInt(IntToString(i)) == Some(i)
  {
    var s := IntToString(i);
    if i < 0 {
      var m: int := i;
      var n := NatToString(-m);
      assert s == "-" + n;
      assert s[0] == '-' && s[1..] == n;
      assert DecimalValue(n) == -m;
    } else {
      assert s == NatToString(i);
      assert IsDigit(s[0]) && AllDigits(s);
      assert s[0] != '-' && s[0] != '+';
    }
  }
}
