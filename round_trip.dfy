/** How the three stages fit together: the values the mapper emits are what
    the reducer reads, and the line the reducer writes (key, tab, value) is
    what the TF-IDF calculator's loader parses back into the positional
    index. */
module IndexRoundTrip {
  import opened JavaText
  import opened TextRoundTrip
  import opened IndexModel
  import opened TfIdfCalculator
  import opened IndexReducer
  import opened IndexMapper

  // ---------------------------------------------------------------------
  // Mapper to reducer.

  /** The reducer reads back the document and the position a mapper value
      carries, for a document name without `@` and a position that fits an
      `int`. */
  lemma ValueRoundTrip(docId: string, i: nat)
    requires '@' !in docId && i <= MaxInt32
    ensures ParseValue(PositionValue(docId, i)) == Some((docId, i))
  {
    var n := IntToString(i);
    IntToStringChars(i);
    assert '@' !in n by {
      assert forall k :: 0 <= k < |n| ==> n[k] != '@';
    }
    SplitTwo(docId, '@', n);
    assert PositionValue(docId, i) == docId + ['@'] + n;
    ParseIntToString(i);
  }

  /** The values the shuffle hands the reducer for key `w` from one call of
      the mapper: those of the records keyed `w`, in order. */
  function ValuesFor(records: seq<Record>, w: string): seq<string>
    decreases |records|
  {
    if records == [] then []
    else
      var last := records[|records| - 1];
      ValuesFor(records[..|records| - 1], w) + if last.key == w then [last.value] else []
  }

  /** Record by record, the `i`-th value reads back as `(docId, i)`. */
  predicate ReadsAs(records: seq<Record>, docId: string)
    decreases |records|
  {
    records == [] ||
    (|records| - 1 <= MaxInt32 &&
     ReadsAs(records[..|records| - 1], docId) &&
     ParseValue(records[|records| - 1].value) == Some((docId, (|records| - 1) as Int32)))
  }

  /** The mapper's values read back as the line's document and their
      indices. */
  lemma {:induction false} MappedValuesRead(records: seq<Record>, docId: string)
    requires '@' !in docId && |records| <= MaxInt32 + 1
    requires forall i :: 0 <= i < |records| ==> records[i].value == PositionValue(docId, i)
    ensures ReadsAs(records, docId)
    decreases |records|
  {
    if records != [] {
      var n := |records| - 1;
      var init := records[..n];
      assert forall i :: 0 <= i < n ==> init[i] == records[i];
      MappedValuesRead(init, docId);
      ValueRoundTrip(docId, n);
    }
  }

  /** Every value for `w` parses and names the line's document. */
  lemma {:induction false} ReadValuesDocs(records: seq<Record>, docId: string, w: string)
    requires ReadsAs(records, docId)
    ensures AllParse(ValuesFor(records, w))
    ensures Docs(ValuesFor(records, w)) <= {docId}
    decreases |records|
  {
    if records != [] {
      var n := |records| - 1;
      var init := records[..n];
      ReadValuesDocs(init, docId, w);
      var vs := ValuesFor(init, w);
      if records[n].key == w {
        assert ValuesFor(records, w) == vs + [records[n].value];
        AppendStep(vs, records[n].value, docId, n as Int32);
      } else {
        assert ValuesFor(records, w) == vs;
      }
    }
  }

  /** The positions the values for `w` give the line's document are exactly
      the indices whose record is keyed `w`. */
  lemma {:induction false} ReadValuesPositions(records: seq<Record>, docId: string, w: string)
    requires ReadsAs(records, docId)
    ensures forall p: Int32 :: p in PositionsOf(ValuesFor(records, w), docId) <==> 0 <= p < |records| && records[p].key == w
    decreases |records|
  {
    if records != [] {
      var n := |records| - 1;
      var init := records[..n];
      ReadValuesPositions(init, docId, w);
      var vs := ValuesFor(init, w);
      var ps := PositionsOf(vs, docId);
      var all := ValuesFor(records, w);
      if records[n].key == w {
        assert all == vs + [records[n].value];
        AppendStep(vs, records[n].value, docId, n as Int32);
        assert PositionsOf(all, docId) == ps + {n as Int32};
      } else {
        assert all == vs;
      }
      forall p: Int32 ensures p in PositionsOf(all, docId) <==> 0 <= p < |records| && records[p].key == w {
        if 0 <= p < n {
          assert init[p] == records[p];
        } else {
          assert p !in ps;
        }
      }
    }
  }

  /** Mapper to reducer, for one line: the reducer's grouping of the mapper's
      values for key `w`. */
  lemma MappedValuesGroup(records: seq<Record>, docId: string, w: string)
    requires '@' !in docId && |records| <= MaxInt32 + 1
    requires forall i :: 0 <= i < |records| ==> records[i].value == PositionValue(docId, i)
    ensures AllParse(ValuesFor(records, w))
    ensures Docs(ValuesFor(records, w)) <= {docId}
    ensures forall p: Int32 :: p in PositionsOf(ValuesFor(records, w), docId) <==> 0 <= p < |records| && records[p].key == w
  {
    MappedValuesRead(records, docId);
    ReadValuesDocs(records, docId, w);
    ReadValuesPositions(records, docId, w);
  }

  /** The positions text is made of digits, minus signs and commas, and
      starts with a number. */
  lemma PositionsTextChars(ps: seq<Int32>)
    requires ps != []
    ensures NumberText(PositionsText(ps)) && |PositionsText(ps)| > 0
    ensures !IsSpace(PositionsText(ps)[0]) && PositionsText(ps)[0] != ','
  {
    PositionsTextIsJoin(ps);
    var texts := Texts(ps);
    forall p | p in texts ensures NumberText(p) {
      var k :| 0 <= k < |texts| && texts[k] == p;
      IntToStringChars(ps[k]);
    }
    JoinNumberText(texts);
    IntToStringChars(ps[0]);
    if |ps| > 1 {
      assert JoinWith(texts, ",")[0] == texts[0][0];
    }
  }

  /** `parseInt` of each `toString` gives the numbers back. */
  lemma {:induction false} ParseAllTexts(texts: seq<string>, ps: seq<Int32>)
    requires |texts| == |ps| && forall k :: 0 <= k < |ps| ==> texts[k] == IntToString(ps[k])
    ensures ParseAll(texts) == Some(ps)
    decreases |ps|
  {
    if ps != [] {
      ParseIntToString(ps[0]);
      ParseAllTexts(texts[1..], ps[1..]);
      assert ps == [ps[0]] + ps[1..];
    }
  }

  /** `split(",\\s*")` of the joined numbers gives one piece per number. */
  lemma CommaSplitTexts(ps: seq<Int32>)
    requires ps != []
    ensures SplitCommaList(JoinWith(Texts(ps), ",")) == Texts(ps)
  {
    var texts := Texts(ps);
    forall k | 0 <= k < |texts| ensures texts[k] != [] && ',' !in texts[k] && !IsSpace(texts[k][0]) {
      IntToStringChars(ps[k]);
      assert ',' !in texts[k] by {
        assert forall j :: 0 <= j < |texts[k]| ==> texts[k][j] != ',';
      }
    }
    SplitAtCommasJoin(texts);
    JoinHead(texts, ",");
    assert texts[|texts| - 1] != [];
  }

  /** The positions text splits back into one `Integer.toString` per
      position and parses back to the positions. */
  lemma PositionsRoundTrip(ps: seq<Int32>)
    requires ps != []
    ensures ParseAll(SplitCommaList(PositionsText(ps))) == Some(ps)
  {
    PositionsTextIsJoin(ps);
    CommaSplitTexts(ps);
    ParseAllTexts(Texts(ps), ps);
  }

  // ---------------------------------------------------------------------
  // One entry.

  /** A document name the round trip is promised for: not empty, no
      character up to U+0020 (so no `\s`, no tab) and no `;`. */
  predicate ValidDocId(d: string) {
    |d| > 0 && (forall k :: 0 <= k < |d| ==> d[k] > ' ') && ';' !in d
  }

  /** What loading `piece` as an entry finds: document `d`, positions `ps`. */
  ghost predicate LoadsAs(piece: string, d: DocId, ps: Positions) {
    var m := FindEntry(Trim(piece));
    m.Some? && m.value.docId == d && ParseAll(SplitCommaList(m.value.positions)) == Some(ps)
  }

  /** An entry, with or without the space that follows a `;`, loads back as
      its document and positions. */
  lemma EntryLoads(d: string, ps: seq<Int32>)
    requires ValidDocId(d) && ps != []
    ensures LoadsAs(EntryText(d, ps), d, ps) && LoadsAs(" " + EntryText(d, ps), d, ps)
    ensures ';' !in EntryText(d, ps) && ';' !in " " + EntryText(d, ps)
    ensures '\t' !in EntryText(d, ps) && '\t' !in " " + EntryText(d, ps)
    ensures EntryText(d, ps) != [] && EntryText(d, ps)[|EntryText(d, ps)| - 1] != ';'
  {
    var g := PositionsText(ps);
    var e := EntryText(d, ps);
    PositionsTextChars(ps);
    assert forall j :: 0 <= j < |g| ==> IsDotChar(g[j]);
    assert forall j :: 0 <= j < |d| ==> !IsSpace(d[j]);
    FindCanonical(d, g);
    PositionsRoundTrip(ps);
    assert e == d + ": " + g;
    assert e[0] == d[0] && e[|e| - 1] == g[|g| - 1];
    assert IsTrimmed(e);
    TrimFixesTrimmed(e);
    TrimLeadingSpace(e);
    NumberTextFree(g);
    assert '\t' !in d by {
      assert forall j :: 0 <= j < |d| ==> d[j] != '\t';
    }
    EntryFree(d, g);
  }

  // ---------------------------------------------------------------------
  // The entries of a line.

  /** The documents of a term in the index, or none. */
  function TermDocs(pi: PosIndex, term: string): map<DocId, Positions> {
    if term in pi then pi[term] else map[]
  }

  /** The documents of `order` with their groups. */
  function MapOf(order: seq<string>, groups: map<string, seq<Int32>>): (m: map<DocId, Positions>)
    requires forall k :: 0 <= k < |order| ==> order[k] in groups
    ensures forall d :: d in m <==> d in order
    ensures forall d :: d in m ==> m[d] == groups[d]
    decreases |order|
  {
    if order == [] then map[]
    else
      var rest := MapOf(order[1..], groups);
      assert forall d :: d in order <==> d == order[0] || d in order[1..];
      map[order[0] := groups[order[0]]] + rest
  }

  /** The loader's step for a piece that loads as document `d`. */
  lemma PieceEffect(t: Tables, term: string, piece: string, d: DocId, ps: Positions)
    requires LoadsAs(piece, d, ps)
    ensures EntryEffect(t, term, piece) == Some(Tables(AddPosting(t.index, term, d, ps), AddRow(t.matrix, d)))
  {
  }

  /** `putIfAbsent` of a document the term does not have yet. */
  lemma AddNewPosting(pi: PosIndex, term: string, d: DocId, ps: Positions)
    requires d !in TermDocs(pi, term)
    ensures AddPosting(pi, term, d, ps) == pi[term := TermDocs(pi, term)[d := ps]]
    ensures TermDocs(AddPosting(pi, term, d, ps), term) == TermDocs(pi, term)[d := ps]
  {
  }

  lemma UpdateThenUnion<T, K, V>(idx: map<T, map<K, V>>, term: T, docs: map<K, V>, k: K, v: V, rest: map<K, V>)
    ensures idx[term := docs[k := v]][term := docs[k := v] + rest] == idx[term := docs + (map[k := v] + rest)]
  {
    assert docs[k := v] + rest == docs + (map[k := v] + rest);
  }

  lemma UnionSingleton<T, K, V>(idx: map<T, map<K, V>>, term: T, docs: map<K, V>, k: K, v: V)
    ensures idx[term := docs[k := v]] == idx[term := docs + (map[k := v] + map[])]
  {
    assert docs[k := v] == docs + (map[k := v] + map[]);
  }

  lemma DistinctTail(order: seq<string>)
    requires order != [] && Distinct(order)
    ensures Distinct(order[1..])
    ensures forall k :: 0 <= k < |order| - 1 ==> order[1..][k] == order[k + 1] && order[k + 1] != order[0]
  {
  }

  /** Piece by piece, each loads as the document at the same place in
      `order`, with that document's group. */
  ghost predicate AllLoad(pieces: seq<string>, order: seq<string>, groups: map<string, seq<Int32>>)
    decreases |pieces|
  {
    |pieces| == |order| &&
    (pieces == [] ||
     (order[0] in groups && LoadsAs(pieces[0], order[0], groups[order[0]]) &&
      AllLoad(pieces[1..], order[1..], groups)))
  }

  lemma {:induction false} AllLoadFrom(pieces: seq<string>, order: seq<string>, groups: map<string, seq<Int32>>)
    requires |pieces| == |order|
    requires forall k :: 0 <= k < |order| ==> order[k] in groups && LoadsAs(pieces[k], order[k], groups[order[k]])
    ensures AllLoad(pieces, order, groups)
    decreases |pieces|
  {
    if pieces != [] {
      assert forall k :: 0 <= k < |order| - 1 ==> pieces[1..][k] == pieces[k + 1] && order[1..][k] == order[k + 1];
      AllLoadFrom(pieces[1..], order[1..], groups);
    }
  }

  /** What loading the entry of document `d` with positions `ps` does. */
  function Next(t: Tables, term: string, d: DocId, ps: Positions): Tables {
    Tables(AddPosting(t.index, term, d, ps), AddRow(t.matrix, d))
  }

  /** The loader's steps for the documents of `order`, one after the other. */
  function Apply(t: Tables, term: string, order: seq<string>, groups: map<string, seq<Int32>>): Tables
    requires forall k :: 0 <= k < |order| ==> order[k] in groups
    decreases |order|
  {
    if order == [] then t else Apply(Next(t, term, order[0], groups[order[0]]), term, order[1..], groups)
  }

  /** Loading the pieces is taking the loader's step for each document. */
  lemma {:induction false} EntriesAreSteps(t: Tables, term: string, pieces: seq<string>,
                                           order: seq<string>, groups: map<string, seq<Int32>>)
    requires AllLoad(pieces, order, groups)
    requires forall k :: 0 <= k < |order| ==> order[k] in groups
    ensures EntriesEffect(t, term, pieces) == Some(Apply(t, term, order, groups))
    decreases |pieces|
  {
    if pieces != [] {
      PieceEffect(t, term, pieces[0], order[0], groups[order[0]]);
      EntriesAreSteps(Next(t, term, order[0], groups[order[0]]), term, pieces[1..], order[1..], groups);
    }
  }

  /** The steps for distinct new documents add exactly those documents, with
      their groups, to the term. */
  lemma {:induction false} StepsAdd(t: Tables, term: string, order: seq<string>, groups: map<string, seq<Int32>>)
    requires Distinct(order) && order != []
    requires forall k :: 0 <= k < |order| ==> order[k] in groups && order[k] !in TermDocs(t.index, term)
    ensures Apply(t, term, order, groups).index == t.index[term := TermDocs(t.index, term) + MapOf(order, groups)]
    decreases |order|
  {
    var d, ps := order[0], groups[order[0]];
    var docs := TermDocs(t.index, term);
    AddNewPosting(t.index, term, d, ps);
    var t1 := Next(t, term, d, ps);
    var rest := MapOf(order[1..], groups);
    assert MapOf(order, groups) == map[d := ps] + rest;
    if |order| == 1 {
      assert rest == map[];
      UnionSingleton(t.index, term, docs, d, ps);
    } else {
      DistinctTail(order);
      StepsAdd(t1, term, order[1..], groups);
      UpdateThenUnion(t.index, term, docs, d, ps, rest);
    }
  }

  // ---------------------------------------------------------------------
  // The round trips.

  /** With every document in `groups`, `MapOf` is `groups` itself. */
  lemma MapOfAll(order: seq<string>, groups: map<string, seq<Int32>>)
    requires forall d :: d in order <==> d in groups
    ensures MapOf(order, groups) == groups
  {
    assert forall k :: 0 <= k < |order| ==> order[k] in order;
  }

  /** The entries the reducer writes, in order. */
  function Entries(order: seq<string>, groups: map<string, seq<Int32>>): (r: seq<string>)
    requires forall k :: 0 <= k < |order| ==> order[k] in groups
    ensures |r| == |order| && forall k :: 0 <= k < |order| ==> r[k] == EntryText(order[k], groups[order[k]])
  {
    seq(|order|, i requires 0 <= i < |order| => EntryText(order[i], groups[order[i]]))
  }

  /** Each piece of the reducer's text loads as its document; none holds a
      `;` or a tab, and the last does not end in `;`. */
  lemma PiecesLoad(order: seq<string>, groups: map<string, seq<Int32>>)
    requires order != []
    requires forall k :: 0 <= k < |order| ==> order[k] in groups && ValidDocId(order[k]) && groups[order[k]] != []
    ensures forall k :: 0 <= k < |order| ==> ';' !in Pieces(Entries(order, groups))[k] && '\t' !in Pieces(Entries(order, groups))[k]
    ensures Pieces(Entries(order, groups))[|order| - 1] != []
    ensures AllLoad(Pieces(Entries(order, groups)), order, groups)
  {
    var entries := Entries(order, groups);
    var pieces := Pieces(entries);
    forall k | 0 <= k < |order|
      ensures LoadsAs(pieces[k], order[k], groups[order[k]]) && ';' !in pieces[k] && '\t' !in pieces[k]
      ensures pieces[k] != []
    {
      EntryLoads(order[k], groups[order[k]]);
      PiecesAt(entries, k);
    }
    AllLoadFrom(pieces, order, groups);
  }

  /** The reducer's text splits at `;` into one piece per document, in
      order, each loading as that document and its positions. */
  lemma SerialisedPieces(order: seq<string>, groups: map<string, seq<Int32>>)
    requires order != []
    requires forall k :: 0 <= k < |order| ==> order[k] in groups && ValidDocId(order[k]) && groups[order[k]] != []
    ensures Serialise(order, groups) != [] && '\t' !in Serialise(order, groups)
    ensures AllLoad(SplitChar(Serialise(order, groups), ';'), order, groups)
  {
    var entries := Entries(order, groups);
    var pieces := Pieces(entries);
    PiecesLoad(order, groups);
    forall p | p in pieces ensures ';' !in p {
      var k :| 0 <= k < |pieces| && pieces[k] == p;
    }
    JoinPieces(entries);
    SplitJoin(pieces, ';');
    JoinHead(pieces, ";");
    JoinFree(pieces, ";", '\t');
    var text := JoinWith(pieces, ";");
    assert Serialise(order, groups) == JoinWith(entries, "; ");
    assert SplitChar(text, ';') == pieces;
  }

  /** A line `term \t text` with no other tab loads the pieces of `text`. */
  lemma LineLoads(t: Tables, term: string, text: string, order: seq<string>, groups: map<string, seq<Int32>>)
    requires '\t' !in term && '\t' !in text && text != []
    requires AllLoad(SplitChar(text, ';'), order, groups)
    requires forall k :: 0 <= k < |order| ==> order[k] in groups
    ensures LineEffect(t, term + "\t" + text) == Some(Apply(t, term, order, groups))
  {
    SplitTwo(term, '\t', text);
    assert term + "\t" + text == term + ['\t'] + text;
    EntriesAreSteps(t, term, SplitChar(text, ';'), order, groups);
  }

  /** Reducer to loader: the line `term \t text` that the reducer's output
      becomes is loaded back as exactly the groups it was written from, for
      a term not loaded before. */
  lemma ReducerOutputLoads(t: Tables, term: string, order: seq<string>, groups: map<string, seq<Int32>>)
    requires '\t' !in term && term !in t.index
    requires order != [] && Distinct(order) && forall d :: d in order <==> d in groups
    requires forall d :: d in groups ==> ValidDocId(d) && groups[d] != []
    ensures LineEffect(t, term + "\t" + Serialise(order, groups)).Some?
    ensures LineEffect(t, term + "\t" + Serialise(order, groups)).value.index == t.index[term := groups]
  {
    ReducerLine(t, term, order, groups);
    StepsAddGroups(t, term, order, groups);
  }

  /** For a new term, the steps for all of `groups` make the term's entry
      `groups` itself. */
  lemma StepsAddGroups(t: Tables, term: string, order: seq<string>, groups: map<string, seq<Int32>>)
    requires term !in t.index
    requires order != [] && Distinct(order) && forall d :: d in order <==> d in groups
    ensures forall k :: 0 <= k < |order| ==> order[k] in groups
    ensures Apply(t, term, order, groups).index == t.index[term := groups]
  {
    assert forall k :: 0 <= k < |order| ==> order[k] in order;
    StepsAdd(t, term, order, groups);
    MapOfAll(order, groups);
    assert TermDocs(t.index, term) == map[];
    EmptyUnion(groups);
  }

  lemma EmptyUnion<K, V>(m: map<K, V>)
    ensures map[] + m == m
  {
  }

  /** The reducer's line is loaded by the loader's step for each of its
      documents, in the order written. */
  lemma ReducerLine(t: Tables, term: string, order: seq<string>, groups: map<string, seq<Int32>>)
    requires '\t' !in term
    requires order != [] && forall d :: d in order <==> d in groups
    requires forall d :: d in groups ==> ValidDocId(d) && groups[d] != []
    ensures LineEffect(t, term + "\t" + Serialise(order, groups)) == Some(Apply(t, term, order, groups))
  {
    assert forall k :: 0 <= k < |order| ==> order[k] in order;
    SerialisedPieces(order, groups);
    LineLoads(t, term, Serialise(order, groups), order, groups);
  }

  // ---------------------------------------------------------------------
  // The whole job, for a term of one line.

  /** The groups the reducer builds from one line's values for a key that
      occurs in it: the line's document alone, with the key's indices. */
  lemma GroupsOfOneLine(records: seq<Record>, docId: string, w: string, groups: map<string, seq<Int32>>)
    requires '@' !in docId && |records| <= MaxInt32 + 1
    requires forall i :: 0 <= i < |records| ==> records[i].value == PositionValue(docId, i)
    requires exists i :: 0 <= i < |records| && records[i].key == w
    requires Grouped(ValuesFor(records, w), groups)
    ensures groups.Keys == {docId} && groups[docId] != []
    ensures forall p: Int32 :: p in groups[docId] <==> 0 <= p < |records| && records[p].key == w
  {
    var values := ValuesFor(records, w);
    MappedValuesGroup(records, docId, w);
    var i :| 0 <= i < |records| && records[i].key == w;
    assert (i as Int32) in PositionsOf(values, docId);
    DocsHavePositions(values, docId);
    assert docId in groups;
    assert (i as Int32) in groups[docId];
  }

  /** Map, shuffle, reduce, then load: the positional index the TF-IDF
      calculator reads for key `w` of one line holds the line's document
      alone, with exactly the indices at which the line's pieces lowercase to
      `w`, for a document named without `@`, `;` or characters up to U+0020
      and a key the mapper could emit. */
  lemma OneLineIndexed(t: Tables, records: seq<Record>, docId: string, w: string,
                       order: seq<string>, groups: map<string, seq<Int32>>)
    requires '@' !in docId && ValidDocId(docId) && |records| <= MaxInt32 + 1
    requires forall i :: 0 <= i < |records| ==> records[i].value == PositionValue(docId, i)
    requires exists i :: 0 <= i < |records| && records[i].key == w
    requires NoSpace(w) && w !in t.index
    requires Grouped(ValuesFor(records, w), groups)
    requires Distinct(order) && forall d :: d in order <==> d in groups
    ensures LineEffect(t, w + "\t" + Serialise(order, groups)).Some?
    ensures var index := LineEffect(t, w + "\t" + Serialise(order, groups)).value.index;
      w in index && index[w].Keys == {docId} &&
      forall p: Int32 :: p in index[w][docId] <==> 0 <= p < |records| && records[p].key == w
  {
    GroupsOfOneLine(records, docId, w, groups);
    assert docId in order;
    assert '\t' !in w by {
      assert forall k :: 0 <= k < |w| ==> w[k] != '\t';
    }
    ReducerOutputLoads(t, w, order, groups);
  }
}
