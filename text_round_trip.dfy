/** Java's `split` undoing a join: the facts about the text layer that the
    round trip from reducer to loader rests on. */
module TextRoundTrip {
  import opened JavaText

  // ---------------------------------------------------------------------
  // Splitting what was joined.

  /** Splitting `a c b` at `c` gives back `a` and `b`. */
  lemma SplitTwo(a: string, c: char, b: string)
    requires c !in a && c !in b && b != []
    ensures SplitChar(a + [c] + b, c) == [a, b]
  {
    SplitAtPrefix(a, c, b);
    SplitAtFree(b, c);
    assert SplitAt(a + [c] + b, c) == [a, b];
    assert DropTrailingEmpty([a, b]) == [a, b];
  }

  /** A join holds `c` only where a part or the separator does. */
  lemma {:induction false} JoinFree(parts: seq<string>, sep: string, c: char)
    requires c !in sep && forall k :: 0 <= k < |parts| ==> c !in parts[k]
    ensures c !in JoinWith(parts, sep)
    decreases |parts|
  {
    if |parts| > 1 {
      JoinFree(parts[1..], sep, c);
      assert c !in parts[0];
    }
  }

  /** A join starts with its first part. */
  lemma JoinHead(parts: seq<string>, sep: string)
    requires parts != [] && parts[0] != []
    ensures JoinWith(parts, sep) != [] && JoinWith(parts, sep)[0] == parts[0][0]
  {
  }

  /** Every character of a list of numbers as the reducer writes it. */
  predicate NumberChar(c: char) {
    IsDigit(c) || c == '-' || c == ','
  }

  predicate NumberText(s: string) {
    forall k :: 0 <= k < |s| ==> NumberChar(s[k])
  }

  /** A list of numbers holds no field or entry separator. */
  lemma NumberTextFree(s: string)
    requires NumberText(s)
    ensures ';' !in s && '\t' !in s && forall k :: 0 <= k < |s| ==> s[k] > ' '
  {
    assert forall k :: 0 <= k < |s| ==> s[k] != ';' && s[k] != '\t';
  }

  lemma {:induction false} JoinNumberText(parts: seq<string>)
    requires forall p :: p in parts ==> NumberText(p)
    ensures NumberText(JoinWith(parts, ","))
    decreases |parts|
  {
    if |parts| > 1 {
      assert parts[0] in parts;
      assert forall p :: p in parts[1..] ==> p in parts;
      JoinNumberText(parts[1..]);
      var rest := JoinWith(parts[1..], ",");
      var s := parts[0] + "," + rest;
      assert forall k :: |parts[0]| + 1 <= k < |s| ==> s[k] == rest[k - |parts[0]| - 1];
    } else if |parts| == 1 {
      assert parts[0] in parts;
    }
  }

  /** The first `c` of `p c rest` is the one after `p`. */
  lemma CharEndAt(p: string, c: char, rest: string)
    requires c !in p
    ensures CharEnd(p + [c] + rest, 0, c) == |p|
  {
    var s := p + [c] + rest;
    var e := CharEnd(s, 0, c);
    assert s[|p|] == c;
    assert forall j :: 0 <= j < |p| ==> s[j] == p[j] && p[j] in p;
  }

  /** One comma: `p , rest` splits into `p` and the pieces of `rest`. */
  lemma SplitAtCommasStep(p: string, rest: string)
    requires ',' !in p && rest != [] && !IsSpace(rest[0])
    ensures SplitAtCommas(p + "," + rest) == [p] + SplitAtCommas(rest)
  {
    var s := p + "," + rest;
    CharEndAt(p, ',', rest);
    assert s[|p| + 1] == rest[0];
    assert SpaceEnd(s, |p| + 1) == |p| + 1;
    assert s[..|p|] == p && s[|p| + 1..] == rest;
  }

  /** No comma: the whole string is one piece. */
  lemma SplitAtCommasFree(p: string)
    requires ',' !in p
    ensures SplitAtCommas(p) == [p]
  {
    assert forall j :: 0 <= j < |p| ==> p[j] in p;
    assert CharEnd(p, 0, ',') == |p|;
  }

  /** `,\s*` splits at every comma when no piece starts with `\s`. */
  lemma {:induction false} SplitAtCommasJoin(parts: seq<string>)
    requires parts != []
    requires forall k :: 0 <= k < |parts| ==> parts[k] != [] && ',' !in parts[k] && !IsSpace(parts[k][0])
    ensures SplitAtCommas(JoinWith(parts, ",")) == parts
    decreases |parts|
  {
    if |parts| == 1 {
      SplitAtCommasFree(parts[0]);
    } else {
      SplitAtCommasJoin(parts[1..]);
      JoinHead(parts[1..], ",");
      SplitAtCommasStep(parts[0], JoinWith(parts[1..], ","));
      assert parts == [parts[0]] + parts[1..];
    }
  }

  lemma TrimLeadingSpace(e: string)
    requires e != [] && IsTrimmed(e)
    ensures Trim(" " + e) == e
  {
    var s := " " + e;
    assert TrimLo(s, 1) == 1;
    assert TrimLo(s, 0) == 1;
    assert TrimHi(s, 1, |s|) == |s|;
    assert s[1..] == e;
  }

  /** The pieces of the reducer's text when it is split at `;`: the first
      entry as it is, every later one behind the space of its "; ". */
  function Pieces(entries: seq<string>): seq<string>
    requires entries != []
  {
    [entries[0]] + seq(|entries| - 1, k requires 0 <= k < |entries| - 1 => " " + entries[k + 1])
  }

  lemma PiecesAt(entries: seq<string>, k: nat)
    requires k < |entries|
    ensures Pieces(entries)[k] == if k == 0 then entries[0] else " " + entries[k]
  {
  }

  /** `d: g`, with or without a leading space, holds no `;` and no tab when
      neither `d` nor `g` does. */
  lemma EntryFree(d: string, g: string)
    requires ';' !in d && '\t' !in d && ';' !in g && '\t' !in g
    ensures ';' !in d + ": " + g && '\t' !in d + ": " + g
    ensures ';' !in " " + (d + ": " + g) && '\t' !in " " + (d + ": " + g)
  {
  }

  lemma {:induction false} JoinSpaced(entries: seq<string>)
    requires entries != []
    ensures " " + JoinWith(entries, "; ") == JoinWith(seq(|entries|, k requires 0 <= k < |entries| => " " + entries[k]), ";")
    decreases |entries|
  {
    var spaced := seq(|entries|, k requires 0 <= k < |entries| => " " + entries[k]);
    if |entries| > 1 {
      JoinSpaced(entries[1..]);
      var spacedRest := seq(|entries| - 1, k requires 0 <= k < |entries| - 1 => " " + entries[1..][k]);
      assert spaced[1..] == spacedRest;
    }
  }

  /** "; " between entries is ";" between the pieces. */
  lemma JoinPieces(entries: seq<string>)
    requires entries != []
    ensures JoinWith(entries, "; ") == JoinWith(Pieces(entries), ";")
  {
    if |entries| > 1 {
      JoinSpaced(entries[1..]);
      var spacedRest := seq(|entries| - 1, k requires 0 <= k < |entries| - 1 => " " + entries[1..][k]);
      assert Pieces(entries)[1..] == spacedRest;
    }
  }

}
