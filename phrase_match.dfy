/** Phrase matching over positions: what `isPhraseInOrder` computes for one
    bigram and how `getDocumentsForTerm` threads its result through a phrase.
    The functions here are the specification the imperative methods of
    `PhraseQueryEngine.PhraseQuery` are proved against. */
module PhraseMatch {
  import opened JavaText
  import opened IndexModel

  /** The anchor admits position `i` of the first term: an anchor of 0 admits
      every position, any other anchor only itself. */
  predicate Allowed(start: Int32, i: Int32) {
    start == 0 || start == i
  }

  /** The inner loop for one position `i` of the first term: walk the second
      term's positions, give up at the first one beyond `i + 1`, and return the
      first one equal to `i + 1` if the anchor admits `i`. */
  function InnerScan(i: Int32, p2: Positions, start: Int32): Option<Int32>
    decreases |p2|
  {
    if p2 == [] then None
    else if p2[0] > Succ(i) then None
    else if p2[0] == Succ(i) && Allowed(start, i) then Some(p2[0])
    else InnerScan(i, p2[1..], start)
  }

  /** The outer loop: the inner scan for each position of the first term in
      list order; -1 when all give up. */
  function Scan(p1: Positions, p2: Positions, start: Int32): Int32
    decreases |p1|
  {
    if p1 == [] then -1
    else match InnerScan(p1[0], p2, start)
      case Some(j) => j
      case None => Scan(p1[1..], p2, start)
  }

  /** `isPhraseInOrder(doc, term1, term2, start)`: -1 when either term is not
      in the index (the caught NullPointerException) or has no positions in
      `doc`, otherwise the scan. */
  function Bigram(index: PosIndex, doc: DocId, term1: string, term2: string, start: Int32): Int32 {
    if term1 !in index || term2 !in index then -1
    else
      var p1 := PositionsIn(index[term1], doc);
      var p2 := PositionsIn(index[term2], doc);
      if p1 == [] || p2 == [] then -1 else Scan(p1, p2, start)
  }

  /** `r` is the second half of an adjacent pair `(i, r)` with `r == i + 1`
      (Java arithmetic), `i` among `p1`, `r` among `p2`, and `i` admitted. */
  ghost predicate AdjacentHit(p1: Positions, p2: Positions, start: Int32, r: int) {
    r in p2 && exists i :: i in p1 && Allowed(start, i) && Succ(i) == r
  }

  lemma {:induction false} InnerScanSound(i: Int32, p2: Positions, start: Int32)
    ensures InnerScan(i, p2, start).Some? ==>
      InnerScan(i, p2, start).value == Succ(i) && Allowed(start, i) && Succ(i) in p2
    decreases |p2|
  {
    if p2 != [] && p2[0] <= Succ(i) && !(p2[0] == Succ(i) && Allowed(start, i)) {
      InnerScanSound(i, p2[1..], start);
    }
  }

  lemma {:induction false} ScanSound(p1: Positions, p2: Positions, start: Int32)
    ensures Scan(p1, p2, start) == -1 || AdjacentHit(p1, p2, start, Scan(p1, p2, start))
    decreases |p1|
  {
    if p1 != [] {
      InnerScanSound(p1[0], p2, start);
      if InnerScan(p1[0], p2, start).None? {
        ScanSound(p1[1..], p2, start);
        var r := Scan(p1[1..], p2, start);
        if r != -1 {
          var i :| i in p1[1..] && Allowed(start, i) && Succ(i) == r;
          assert i in p1;
        }
      }
    }
  }

  /** Any result other than -1 is a position of `term2` in `doc` directly
      after an admitted position of `term1`; so a missing term, or a term with
      no positions in `doc`, gives -1. */
  lemma BigramSound(index: PosIndex, doc: DocId, term1: string, term2: string, start: Int32)
    ensures Bigram(index, doc, term1, term2, start) != -1 ==>
      term1 in index && term2 in index &&
      AdjacentHit(PositionsIn(index[term1], doc), PositionsIn(index[term2], doc), start,
                  Bigram(index, doc, term1, term2, start))
  {
    if term1 in index && term2 in index {
      ScanSound(PositionsIn(index[term1], doc), PositionsIn(index[term2], doc), start);
    }
  }

  /** With a non-zero anchor, success means continuing the previous match:
      the result is the anchor's successor. */
  lemma BigramAnchored(index: PosIndex, doc: DocId, term1: string, term2: string, start: Int32)
    requires start != 0
    ensures Bigram(index, doc, term1, term2, start) == -1 ||
            Bigram(index, doc, term1, term2, start) == Succ(start)
  {
    BigramSound(index, doc, term1, term2, start);
  }

  /** Every position in the index is a non-negative `int` below the maximum,
      as the index construction produces them. */
  ghost predicate NaturalPositions(index: PosIndex) {
    forall t, d, k :: t in index && d in index[t] && 0 <= k < |index[t][d]| ==>
      0 <= index[t][d][k] < MaxInt32
  }

  /** On such an index a success is at least 1, so the `> 0` test in
      `getDocumentsForTerm` is exactly "not -1". */
  lemma BigramPositive(index: PosIndex, doc: DocId, term1: string, term2: string, start: Int32)
    requires NaturalPositions(index)
    ensures Bigram(index, doc, term1, term2, start) == -1 ||
            Bigram(index, doc, term1, term2, start) >= 1
  {
    BigramSound(index, doc, term1, term2, start);
    var r := Bigram(index, doc, term1, term2, start);
    if r != -1 {
      var p1 := PositionsIn(index[term1], doc);
      var i :| i in p1 && Allowed(start, i) && Succ(i) == r;
      var k :| 0 <= k < |p1| && p1[k] == i;
      assert 0 <= index[term1][doc][k] < MaxInt32;
    }
  }

  // ---------------------------------------------------------------------
  // An independent reference for sorted positions.

  /** Position `p1[m]` is admitted and its successor is among `p2`. */
  ghost predicate Hit(p1: Positions, p2: Positions, start: Int32, m: int) {
    0 <= m < |p1| && Allowed(start, p1[m]) && Succ(p1[m]) in p2
  }

  /** The first admitted position of the first term, in list order, whose
      successor occurs anywhere among the second term's positions. */
  function FirstAdjacent(p1: Positions, p2: Positions, start: Int32): Int32
    decreases |p1|
  {
    if p1 == [] then -1
    else if Allowed(start, p1[0]) && Succ(p1[0]) in p2 then Succ(p1[0])
    else FirstAdjacent(p1[1..], p2, start)
  }

  /** The reference returns the successor of the first hit, and -1 if there is
      none. */
  lemma {:induction false} FirstAdjacentIsFirstHit(p1: Positions, p2: Positions, start: Int32)
    ensures (forall m :: !Hit(p1, p2, start, m)) ==> FirstAdjacent(p1, p2, start) == -1
    ensures forall k :: Hit(p1, p2, start, k) && (forall m :: 0 <= m < k ==> !Hit(p1, p2, start, m)) ==>
      FirstAdjacent(p1, p2, start) == Succ(p1[k])
    decreases |p1|
  {
    if p1 != [] {
      FirstAdjacentIsFirstHit(p1[1..], p2, start);
      forall m | Hit(p1[1..], p2, start, m) ensures Hit(p1, p2, start, m + 1) { }
      forall k | Hit(p1, p2, start, k) && (forall m :: 0 <= m < k ==> !Hit(p1, p2, start, m))
        ensures FirstAdjacent(p1, p2, start) == Succ(p1[k])
      {
        if k > 0 {
          assert !Hit(p1, p2, start, 0);
          assert Hit(p1[1..], p2, start, k - 1);
          forall m | 0 <= m < k - 1 ensures !Hit(p1[1..], p2, start, m) {
            assert !Hit(p1, p2, start, m + 1);
          }
        }
      }
      if forall m :: !Hit(p1, p2, start, m) {
        assert !Hit(p1, p2, start, 0);
        forall m ensures !Hit(p1[1..], p2, start, m) {
          assert !Hit(p1, p2, start, m + 1);
        }
      }
    }
  }

  /** Positions in non-decreasing order, as a TreeSet produces them. */
  predicate NonDecreasing(p: Positions) {
    forall a, b :: 0 <= a < b < |p| ==> p[a] <= p[b]
  }

  /** On ascending positions the early `break` skips no candidate. */
  lemma {:induction false} InnerScanSorted(i: Int32, p2: Positions, start: Int32)
    requires NonDecreasing(p2)
    ensures InnerScan(i, p2, start) ==
      if Allowed(start, i) && Succ(i) in p2 then Some(Succ(i)) else None
    decreases |p2|
  {
    if p2 != [] {
      if p2[0] > Succ(i) {
        assert forall k :: 0 <= k < |p2| ==> p2[k] >= p2[0];
      } else if !(p2[0] == Succ(i) && Allowed(start, i)) {
        InnerScanSorted(i, p2[1..], start);
        assert p2 == [p2[0]] + p2[1..];
      }
    }
  }

  lemma {:induction false} ScanSorted(p1: Positions, p2: Positions, start: Int32)
    requires NonDecreasing(p2)
    ensures Scan(p1, p2, start) == FirstAdjacent(p1, p2, start)
    decreases |p1|
  {
    if p1 != [] {
      InnerScanSorted(p1[0], p2, start);
      ScanSorted(p1[1..], p2, start);
    }
  }

  /** When the second term's positions are ascending, `isPhraseInOrder` is the
      reference: -1 exactly when no admitted adjacent pair exists, else the
      first one in term1-major order. */
  lemma BigramOnAscending(index: PosIndex, doc: DocId, term1: string, term2: string, start: Int32)
    requires term2 in index ==> NonDecreasing(PositionsIn(index[term2], doc))
    ensures Bigram(index, doc, term1, term2, start) ==
      if term1 in index && term2 in index
      then FirstAdjacent(PositionsIn(index[term1], doc), PositionsIn(index[term2], doc), start)
      else -1
  {
    if term1 in index && term2 in index {
      var p1 := PositionsIn(index[term1], doc);
      var p2 := PositionsIn(index[term2], doc);
      ScanSorted(p1, p2, start);
      if p1 != [] && p2 == [] {
        FirstAdjacentIsFirstHit(p1, p2, start);
      }
    }
  }

  // ---------------------------------------------------------------------
  // Phrases.

  /** The bigram loop of `getDocumentsForTerm` for one document: each check's
      result is the next check's anchor, and every check must return more
      than 0. */
  function Chain(index: PosIndex, doc: DocId, terms: seq<string>, anchor: Int32): bool
    decreases |terms|
  {
    if |terms| < 2 then true
    else
      var r := Bigram(index, doc, terms[0], terms[1], anchor);
      r > 0 && Chain(index, doc, terms[1..], r)
  }

  /** `flag` at the end of the loop: at least one bigram, all succeeded. */
  predicate PhraseInDoc(index: PosIndex, doc: DocId, terms: seq<string>) {
    |terms| >= 2 && Chain(index, doc, terms, 0)
  }

  /** The words of `terms` sit at consecutive positions `p, p + 1, ...` of `doc`. */
  ghost predicate OccursFrom(index: PosIndex, doc: DocId, terms: seq<string>, p: int) {
    forall k :: 0 <= k < |terms| ==> terms[k] in index && p + k in PositionsIn(index[terms[k]], doc)
  }

  /** Soundness of the chain: a document passes only if the phrase really
      occurs in it contiguously, starting at the anchor when the anchor is set. */
  lemma {:induction false} ChainSound(index: PosIndex, doc: DocId, terms: seq<string>, anchor: Int32)
    requires |terms| >= 2 && Chain(index, doc, terms, anchor)
    ensures exists p :: OccursFrom(index, doc, terms, p) && (anchor != 0 ==> p == anchor)
    decreases |terms|
  {
    var r := Bigram(index, doc, terms[0], terms[1], anchor);
    BigramSound(index, doc, terms[0], terms[1], anchor);
    var i :| i in PositionsIn(index[terms[0]], doc) && Allowed(anchor, i) && Succ(i) == r;
    assert i < MaxInt32 && r == i + 1;
    if |terms| == 2 {
      assert OccursFrom(index, doc, terms, i);
    } else {
      ChainSound(index, doc, terms[1..], r);
      var q :| OccursFrom(index, doc, terms[1..], q) && q == r;
      forall k | 0 <= k < |terms|
        ensures terms[k] in index && i + k in PositionsIn(index[terms[k]], doc)
      {
        if k > 0 {
          assert terms[k] == terms[1..][k - 1];
        }
      }
      assert OccursFrom(index, doc, terms, i);
    }
  }

  /** Only the first bigram of a phrase runs unanchored: each later check runs
      with the previous result, which is positive. */
  lemma PhraseInDocSound(index: PosIndex, doc: DocId, terms: seq<string>)
    requires PhraseInDoc(index, doc, terms)
    ensures exists p :: OccursFrom(index, doc, terms, p)
  {
    ChainSound(index, doc, terms, 0);
  }

  // ---------------------------------------------------------------------
  // Pinned-down behaviour on small indexes.

  /** x at [2, 5], y at [3, 6], z at [4] in D: the first bigram returns 3, and
      the phrase "x y z" (at 2, 3, 4) matches. */
  lemma ContiguousPhraseMatches()
    ensures var index: PosIndex := map["x" := map["D" := [2, 5]], "y" := map["D" := [3, 6]],
                                       "z" := map["D" := [4]]];
      Bigram(index, "D", "x", "y", 0) == 3 && Bigram(index, "D", "y", "z", 3) == 4 &&
      PhraseInDoc(index, "D", ["x", "y", "z"])
  {
    var index: PosIndex := map["x" := map["D" := [2, 5]], "y" := map["D" := [3, 6]],
                               "z" := map["D" := [4]]];
    assert Bigram(index, "D", "x", "y", 0) == 3;
    assert Bigram(index, "D", "y", "z", 3) == 4;
    assert ["x", "y", "z"][1..] == ["y", "z"];
    assert ["y", "z"][1..] == ["z"];
  }

  /** The chain commits to the first match of its first bigram: "a b c"
      occurs at 5, 6, 7, yet the document is rejected, because "a b" is first
      found at 0, 1 and "b c" then has to continue from 1. */
  lemma ChainCommitsToFirstMatch()
    ensures var index: PosIndex := map["a" := map["D" := [0, 5]], "b" := map["D" := [1, 6]],
                                       "c" := map["D" := [7]]];
      OccursFrom(index, "D", ["a", "b", "c"], 5) && !PhraseInDoc(index, "D", ["a", "b", "c"])
  {
    var index: PosIndex := map["a" := map["D" := [0, 5]], "b" := map["D" := [1, 6]],
                               "c" := map["D" := [7]]];
    var terms := ["a", "b", "c"];
    assert Bigram(index, "D", "a", "b", 0) == 1;
    assert Bigram(index, "D", "b", "c", 1) == -1;
    assert terms[1..] == ["b", "c"];
    assert forall k :: 0 <= k < 3 ==> 5 + k in PositionsIn(index[terms[k]], "D");
  }

  /** A match whose second position is 0 (the first word at -1, possible only
      in a hand-edited index file) is found by the bigram check but rejected by
      the `> 0` test. */
  lemma MatchAtZeroRejected()
    ensures var index: PosIndex := map["a" := map["D" := [-1]], "b" := map["D" := [0]]];
      Bigram(index, "D", "a", "b", 0) == 0 && OccursFrom(index, "D", ["a", "b"], -1) &&
      !PhraseInDoc(index, "D", ["a", "b"])
  {
    var index: PosIndex := map["a" := map["D" := [-1]], "b" := map["D" := [0]]];
    assert Bigram(index, "D", "a", "b", 0) == 0;
  }
}
