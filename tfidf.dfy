/** The index loader of the TF-IDF calculator: the parse of one line of the
    positional-index file into the positional index and the rows of the
    TF-IDF matrix, the count of documents, the `Term` records and their
    matrix cells, `tf_weight` and the column padding of the tables. */
module TfIdfCalculator {
  import opened JavaText
  import opened IndexModel

  // ---------------------------------------------------------------------
  // The entry pattern `(\S+):\s+(.+)` under `Matcher.find`.

  /** The regex dot: any character but a line terminator. */
  predicate IsDotChar(c: char) {
    c != '\n' && c != '\r' && c != '\U{0085}' && c != '\U{2028}' && c != '\U{2029}'
  }

  /** End of what a greedy `.+` takes from `p`. */
  function DotEnd(t: string, p: nat): (e: nat)
    requires p <= |t|
    ensures p <= e <= |t|
    ensures forall j :: p <= j < e ==> IsDotChar(t[j])
    ensures e < |t| ==> !IsDotChar(t[e])
    decreases |t| - p
  {
    if p < |t| && IsDotChar(t[p]) then DotEnd(t, p + 1) else p
  }

  /** Where `.+` can start once the greedy `\s+` before it gives characters
      back: the last position from `hi` down to `lo` that holds a dot
      character. */
  function DotStart(t: string, lo: nat, hi: nat): (r: Option<nat>)
    requires lo <= hi <= |t|
    ensures r.Some? ==> lo <= r.value <= hi && r.value < |t| && IsDotChar(t[r.value])
    ensures r.Some? ==> forall q :: r.value < q <= hi && q < |t| ==> !IsDotChar(t[q])
    ensures r.None? ==> forall q :: lo <= q <= hi && q < |t| ==> !IsDotChar(t[q])
    decreases hi
  {
    if hi < |t| && IsDotChar(t[hi]) then Some(hi)
    else if hi == lo then None
    else DotStart(t, lo, hi - 1)
  }

  /** `group(1)` and `group(2)` of a successful match. */
  datatype EntryMatch = EntryMatch(docId: string, positions: string)

  /** The match attempt at `k`. The greedy `\S+` must give back exactly one
      character, the `:`, since a `\s` has to follow it; `\s+` then gives back
      characters until `.+` can start. */
  function AttemptAt(t: string, k: nat): Option<EntryMatch>
    requires k <= |t|
  {
    if k == |t| || IsSpace(t[k]) then None
    else
      var e := WordEnd(t, k);
      if e - 1 > k && t[e - 1] == ':' && e < |t| then
        match DotStart(t, e + 1, SpaceEnd(t, e))
        case None => None
        case Some(p) => Some(EntryMatch(t[k..e - 1], t[p..DotEnd(t, p)]))
      else None
  }

  function FindFrom(t: string, k: nat): Option<EntryMatch>
    requires k <= |t|
    decreases |t| - k
  {
    if k == |t| then None
    else match AttemptAt(t, k)
      case Some(m) => Some(m)
      case None => FindFrom(t, k + 1)
  }

  /** `matcher.find()` on an entry: the first start at which the pattern matches. */
  function FindEntry(t: string): Option<EntryMatch> {
    FindFrom(t, 0)
  }

  /** What the pattern demands around a match found at `k`: `docId`, a colon,
      a run of `\s` up to `p`, then `positions`, all dot characters. */
  ghost predicate MatchedAt(t: string, k: nat, p: nat, m: EntryMatch) {
    var d, g := m.docId, m.positions;
    |d| > 0 && |g| > 0 && k + |d| + 1 < p && p + |g| <= |t| &&
    t[k..k + |d|] == d && t[k + |d|] == ':' && t[p..p + |g|] == g &&
    (forall j :: 0 <= j < |d| ==> !IsSpace(d[j])) &&
    (forall j :: k + |d| < j < p ==> IsSpace(t[j])) &&
    (forall j :: 0 <= j < |g| ==> IsDotChar(g[j]))
  }

  /** The pieces of a successful attempt, put together, have the shape of
      `MatchedAt`. */
  lemma MatchedFromParts(t: string, k: nat, e: nat, p: nat, q: nat)
    requires k < e - 1 && e < |t| && t[e - 1] == ':' && forall j :: k <= j < e ==> !IsSpace(t[j])
    requires e + 1 <= p < q <= |t|
    requires forall j :: e <= j < p ==> IsSpace(t[j])
    requires forall j :: p <= j < q ==> IsDotChar(t[j])
    ensures MatchedAt(t, k, p, EntryMatch(t[k..e - 1], t[p..q]))
  {
    var d, g := t[k..e - 1], t[p..q];
    assert forall j :: 0 <= j < |d| ==> d[j] == t[k + j];
    assert forall j :: 0 <= j < |g| ==> g[j] == t[p + j];
  }

  lemma AttemptSound(t: string, k: nat)
    requires k <= |t| && AttemptAt(t, k).Some?
    ensures exists p :: MatchedAt(t, k, p, AttemptAt(t, k).value)
  {
    var e := WordEnd(t, k);
    var sp := SpaceEnd(t, e);
    var p := DotStart(t, e + 1, sp).value;
    var q := DotEnd(t, p);
    assert AttemptAt(t, k).value == EntryMatch(t[k..e - 1], t[p..q]);
    MatchedFromParts(t, k, e, p, q);
  }

  /** Soundness of the search: a match is a substring of the shape the
      pattern describes. */
  lemma {:induction false} FindSound(t: string, k: nat)
    requires k <= |t| && FindFrom(t, k).Some?
    ensures exists i, p :: k <= i && MatchedAt(t, i, p, FindFrom(t, k).value)
    decreases |t| - k
  {
    if AttemptAt(t, k).Some? {
      AttemptSound(t, k);
    } else {
      FindSound(t, k + 1);
    }
  }

  /** The shape the reducer writes is found whole: `docId: positions` gives
      back `docId` and `positions`. */
  lemma FindCanonical(d: string, g: string)
    requires |d| > 0 && forall j :: 0 <= j < |d| ==> !IsSpace(d[j])
    requires |g| > 0 && !IsSpace(g[0]) && forall j :: 0 <= j < |g| ==> IsDotChar(g[j])
    ensures FindEntry(d + ": " + g) == Some(EntryMatch(d, g))
  {
    var t := d + ": " + g;
    var e := |d| + 1;
    assert forall j :: 0 <= j < e ==> !IsSpace(t[j]);
    assert t[e] == ' ';
    assert WordEnd(t, 0) == e;
    assert t[e + 1] == g[0];
    assert SpaceEnd(t, e) == e + 1;
    assert forall j :: e + 1 <= j < |t| ==> t[j] == g[j - e - 1];
    assert DotEnd(t, e + 1) == |t|;
    assert DotStart(t, e + 1, e + 1) == Some(e + 1);
    assert t[0..e - 1] == d && t[e + 1..|t|] == g;
    assert AttemptAt(t, 0) == Some(EntryMatch(d, g));
  }

  // ---------------------------------------------------------------------
  // The effect of one line.

  /** `Integer.parseInt` on each piece in order; None when one of them throws. */
  function ParseAll(pieces: seq<string>): (r: Option<Positions>)
    ensures r.Some? <==> forall i :: 0 <= i < |pieces| ==> ParseInt(pieces[i]).Some?
    ensures r.Some? ==> |r.value| == |pieces|
    ensures r.Some? ==> forall i :: 0 <= i < |pieces| ==> ParseInt(pieces[i]) == Some(r.value[i])
    decreases |pieces|
  {
    if pieces == [] then Some([])
    else match (ParseInt(pieces[0]), ParseAll(pieces[1..]))
      case (Some(v), Some(rest)) => Some([v] + rest)
      case _ => None
  }

  /** The two maps the loader fills. */
  datatype Tables = Tables(index: PosIndex, matrix: Matrix)

  /** `positionalIndex.computeIfAbsent(term, ...).putIfAbsent(doc, ps)`. */
  function AddPosting(pi: PosIndex, term: string, doc: DocId, ps: Positions): PosIndex {
    var docs := if term in pi then pi[term] else map[];
    pi[term := if doc in docs then docs else docs[doc := ps]]
  }

  /** `tfidfMatrix.putIfAbsent(doc, new HashMap<>())`. */
  function AddRow(tm: Matrix, doc: DocId): Matrix {
    if doc in tm then tm else tm[doc := map[]]
  }

  /** One entry of a line: skipped when the pattern does not match it, None
      when one of its positions is not a number (the exception that ends the
      program), otherwise added first-wins to both maps. */
  function EntryEffect(t: Tables, term: string, entry: string): Option<Tables> {
    match FindEntry(Trim(entry))
    case None => Some(t)
    case Some(m) =>
      match ParseAll(SplitCommaList(m.positions))
      case None => None
      case Some(ps) => Some(Tables(AddPosting(t.index, term, m.docId, ps), AddRow(t.matrix, m.docId)))
  }

  function EntriesEffect(t: Tables, term: string, entries: seq<string>): Option<Tables>
    decreases |entries|
  {
    if entries == [] then Some(t)
    else match EntryEffect(t, term, entries[0])
      case None => None
      case Some(t') => EntriesEffect(t', term, entries[1..])
  }

  /** A line: split on tab; fewer than two fields leave both maps alone,
      otherwise the second field is split on `;` into entries of the term in
      the first. */
  function LineEffect(t: Tables, line: string): Option<Tables> {
    var parts := SplitChar(line, '\t');
    if |parts| < 2 then Some(t)
    else EntriesEffect(t, parts[0], SplitChar(parts[1], ';'))
  }

  /** The document an entry adds, if the pattern matches it. */
  function EntryDoc(entry: string): set<DocId> {
    match FindEntry(Trim(entry))
    case None => {}
    case Some(m) => {m.docId}
  }

  function EntriesDocs(entries: seq<string>): set<DocId>
    decreases |entries|
  {
    if entries == [] then {} else EntryDoc(entries[0]) + EntriesDocs(entries[1..])
  }

  /** The documents named by the matching entries of a line. */
  function LineDocs(line: string): set<DocId> {
    var parts := SplitChar(line, '\t');
    if |parts| < 2 then {} else EntriesDocs(SplitChar(parts[1], ';'))
  }

  // ---------------------------------------------------------------------
  // What loading preserves.

  /** Every term has at least one document, every document of the index has a
      row, and before the TF-IDF pass every row is empty. */
  ghost predicate Loaded(t: Tables) {
    (forall term :: term in t.index ==> t.index[term] != map[] && t.index[term].Keys <= t.matrix.Keys) &&
    (forall d :: d in t.matrix ==> t.matrix[d] == map[])
  }

  /** Nothing already in the index is replaced. */
  ghost predicate IndexExtends(before: PosIndex, after: PosIndex) {
    before.Keys <= after.Keys &&
    forall term :: term in before ==>
      before[term].Keys <= after[term].Keys &&
      forall d :: d in before[term] ==> after[term][d] == before[term][d]
  }

  /** Nothing already in the matrix is replaced. */
  ghost predicate MatrixExtends(before: Matrix, after: Matrix) {
    before.Keys <= after.Keys && forall d :: d in before ==> after[d] == before[d]
  }

  ghost predicate Extends(before: Tables, after: Tables) {
    IndexExtends(before.index, after.index) && MatrixExtends(before.matrix, after.matrix)
  }

  lemma ExtendsTransitive(t1: Tables, t2: Tables, t3: Tables)
    requires Extends(t1, t2) && Extends(t2, t3)
    ensures Extends(t1, t3)
  {
    assert IndexExtends(t1.index, t3.index) by {
      forall term | term in t1.index
        ensures t1.index[term].Keys <= t3.index[term].Keys
        ensures forall d :: d in t1.index[term] ==> t3.index[term][d] == t1.index[term][d]
      {
        assert t1.index[term].Keys <= t2.index[term].Keys;
      }
    }
  }

  /** Adding one entry's document and positions keeps what was there, adds
      the document's row, and keeps the maps `Loaded`. */
  lemma AddEntryPreserves(t: Tables, term: string, doc: DocId, ps: Positions)
    ensures var t' := Tables(AddPosting(t.index, term, doc, ps), AddRow(t.matrix, doc));
      Extends(t, t') && t'.matrix.Keys == t.matrix.Keys + {doc} && (Loaded(t) ==> Loaded(t'))
  {
    var t' := Tables(AddPosting(t.index, term, doc, ps), AddRow(t.matrix, doc));
    AddPostingExtends(t.index, term, doc, ps);
    AddRowExtends(t.matrix, doc);
    if Loaded(t) {
      forall u | u in t'.index ensures t'.index[u] != map[] && t'.index[u].Keys <= t'.matrix.Keys {
        if u == term {
          assert doc in t'.index[u];
        } else {
          assert t'.index[u] == t.index[u];
        }
      }
    }
  }

  /** `AddRow` keeps every row and adds the document's, empty when new. */
  lemma AddRowExtends(tm: Matrix, doc: DocId)
    ensures MatrixExtends(tm, AddRow(tm, doc)) && AddRow(tm, doc).Keys == tm.Keys + {doc}
    ensures forall d :: d in tm && tm[d] == map[] ==> AddRow(tm, doc)[d] == map[]
    ensures doc !in tm ==> AddRow(tm, doc)[doc] == map[]
  {
  }

  /** `AddPosting` keeps every other term, and gives `term` the document. */
  lemma AddPostingExtends(pi: PosIndex, term: string, doc: DocId, ps: Positions)
    ensures var pi' := AddPosting(pi, term, doc, ps);
      IndexExtends(pi, pi') && pi'.Keys == pi.Keys + {term} &&
      pi'[term].Keys == (if term in pi then pi[term].Keys else {}) + {doc} &&
      forall u :: u in pi && u != term ==> pi'[u] == pi[u]
  {
    var pi' := AddPosting(pi, term, doc, ps);
    assert pi'[term].Keys == (if term in pi then pi[term].Keys else {}) + {doc};
  }

  lemma EntryPreserves(t: Tables, term: string, entry: string)
    requires EntryEffect(t, term, entry).Some?
    ensures var t' := EntryEffect(t, term, entry).value;
      Extends(t, t') && t'.matrix.Keys == t.matrix.Keys + EntryDoc(entry) &&
      (Loaded(t) ==> Loaded(t'))
  {
    var found := FindEntry(Trim(entry));
    if found.Some? {
      var m := found.value;
      var ps := ParseAll(SplitCommaList(m.positions)).value;
      AddEntryPreserves(t, term, m.docId, ps);
    }
  }

  /** The entries of a line only add to the maps, add exactly the matched
      documents as rows, and keep the maps `Loaded`. */
  lemma {:induction false} EntriesPreserve(t: Tables, term: string, entries: seq<string>)
    requires EntriesEffect(t, term, entries).Some?
    ensures var t' := EntriesEffect(t, term, entries).value;
      Extends(t, t') && t'.matrix.Keys == t.matrix.Keys + EntriesDocs(entries) &&
      (Loaded(t) ==> Loaded(t'))
    decreases |entries|
  {
    if entries != [] {
      EntryPreserves(t, term, entries[0]);
      var t1 := EntryEffect(t, term, entries[0]).value;
      EntriesPreserve(t1, term, entries[1..]);
      ExtendsTransitive(t, t1, EntriesEffect(t, term, entries).value);
    }
  }

  lemma LinePreserves(t: Tables, line: string)
    requires LineEffect(t, line).Some?
    ensures var t' := LineEffect(t, line).value;
      Extends(t, t') && t'.matrix.Keys == t.matrix.Keys + LineDocs(line) &&
      (Loaded(t) ==> Loaded(t'))
  {
    var parts := SplitChar(line, '\t');
    if |parts| >= 2 {
      EntriesPreserve(t, parts[0], SplitChar(parts[1], ';'));
    }
  }

  /** An entry the pattern does not match is skipped, and the entries after
      it are still processed: the line has the effect it would have without
      that entry. */
  lemma {:induction false} SkipUnmatched(t: Tables, term: string, before: seq<string>, entry: string, after: seq<string>)
    requires FindEntry(Trim(entry)).None?
    ensures EntriesEffect(t, term, before + [entry] + after) == EntriesEffect(t, term, before + after)
    decreases |before|
  {
    if before == [] {
      assert before + [entry] + after == [entry] + after && before + after == after;
      assert ([entry] + after)[1..] == after;
      assert EntryEffect(t, term, entry) == Some(t);
    } else {
      assert (before + [entry] + after)[1..] == before[1..] + [entry] + after;
      assert (before + after)[1..] == before[1..] + after;
      match EntryEffect(t, term, before[0])
      case None =>
      case Some(t1) => SkipUnmatched(t1, term, before[1..], entry, after);
    }
  }

  // ---------------------------------------------------------------------
  // The read loop.

  /** The body of the entry loop in `main`: match the trimmed entry, parse
      its positions, insert first-wins. `ok` is false where
      `Integer.parseInt` throws. */
  method LoadEntry(positionalIndex: PosIndex, tfidfMatrix: Matrix, term: string, entry: string)
    returns (ok: bool, newIndex: PosIndex, newMatrix: Matrix)
    ensures ok <==> EntryEffect(Tables(positionalIndex, tfidfMatrix), term, entry).Some?
    ensures ok ==> EntryEffect(Tables(positionalIndex, tfidfMatrix), term, entry) == Some(Tables(newIndex, newMatrix))
  {
    newIndex, newMatrix := positionalIndex, tfidfMatrix;
    var matcher := FindEntry(Trim(entry));
    if matcher.None? {
      return true, newIndex, newMatrix;
    }
    var docId := matcher.value.docId;
    var positions := SplitCommaList(matcher.value.positions);
    var positionList: Positions := [];
    for j := 0 to |positions|
      invariant |positionList| == j
      invariant forall k :: 0 <= k < j ==> ParseInt(positions[k]) == Some(positionList[k])
    {
      var v := ParseInt(positions[j]);
      if v.None? {
        return false, newIndex, newMatrix;
      }
      positionList := positionList + [v.value];
    }
    var parsed := ParseAll(positions);
    assert parsed.Some?;
    assert forall k :: 0 <= k < |positions| ==> parsed.value[k] == positionList[k];
    assert parsed.value == positionList;
    var docs := if term in newIndex then newIndex[term] else map[];
    if docId !in docs {
      docs := docs[docId := positionList];
    }
    newIndex := newIndex[term := docs];
    if docId !in newMatrix {
      newMatrix := newMatrix[docId := map[]];
    }
    ok := true;
  }

  /** One line of the read loop in `main`, lifted out of the I/O: `ok` is
      false where `Integer.parseInt` throws. */
  method LoadLine(positionalIndex: PosIndex, tfidfMatrix: Matrix, line: string)
    returns (ok: bool, newIndex: PosIndex, newMatrix: Matrix)
    ensures ok <==> LineEffect(Tables(positionalIndex, tfidfMatrix), line).Some?
    ensures ok ==> LineEffect(Tables(positionalIndex, tfidfMatrix), line) == Some(Tables(newIndex, newMatrix))
    ensures |SplitChar(line, '\t')| < 2 ==> ok && newIndex == positionalIndex && newMatrix == tfidfMatrix
  {
    newIndex, newMatrix := positionalIndex, tfidfMatrix;
    var parts := SplitChar(line, '\t');
    if |parts| < 2 {
      return true, newIndex, newMatrix;
    }
    var term := parts[0];
    var entries := SplitChar(parts[1], ';');
    ghost var start := Tables(positionalIndex, tfidfMatrix);
    for i := 0 to |entries|
      invariant EntriesEffect(start, term, entries) == EntriesEffect(Tables(newIndex, newMatrix), term, entries[i..])
    {
      assert entries[i..][0] == entries[i] && entries[i..][1..] == entries[i + 1..];
      ok, newIndex, newMatrix := LoadEntry(newIndex, newMatrix, term, entries[i]);
      if !ok {
        return;
      }
    }
    assert entries[|entries|..] == [];
    ok := true;
  }

  /** The documents named by the matching entries of all lines. */
  function AllDocs(lines: seq<string>): set<DocId>
    decreases |lines|
  {
    if lines == [] then {} else LineDocs(lines[0]) + AllDocs(lines[1..])
  }

  /** The read loop of `main` over the lines of the file: each line in turn,
      None from the first line on which `Integer.parseInt` throws. */
  function LinesEffect(t: Tables, lines: seq<string>): Option<Tables>
    decreases |lines|
  {
    if lines == [] then Some(t)
    else match LineEffect(t, lines[0])
      case None => None
      case Some(t') => LinesEffect(t', lines[1..])
  }

  /** All lines only add to the maps, add exactly the matched documents as
      rows, and keep the maps `Loaded`. */
  lemma {:induction false} LinesPreserve(t: Tables, lines: seq<string>)
    requires LinesEffect(t, lines).Some?
    ensures var t' := LinesEffect(t, lines).value;
      Extends(t, t') && t'.matrix.Keys == t.matrix.Keys + AllDocs(lines) &&
      (Loaded(t) ==> Loaded(t'))
    decreases |lines|
  {
    if lines != [] {
      LinePreserves(t, lines[0]);
      var t1 := LineEffect(t, lines[0]).value;
      LinesPreserve(t1, lines[1..]);
      ExtendsTransitive(t, t1, LinesEffect(t, lines).value);
    }
  }

  /** The read loop of `main` over the lines of the file, then
      `totalDocuments`. `ok` is false exactly where the program would stop on
      a number; otherwise the maps are what the lines load, they are
      `Loaded`, and `totalDocuments` is the number of distinct documents of
      the matching entries. */
  method LoadIndex(lines: seq<string>)
    returns (ok: bool, positionalIndex: PosIndex, tfidfMatrix: Matrix, totalDocuments: nat)
    ensures ok <==> LinesEffect(Tables(map[], map[]), lines).Some?
    ensures ok ==> LinesEffect(Tables(map[], map[]), lines) == Some(Tables(positionalIndex, tfidfMatrix))
    ensures ok ==> Loaded(Tables(positionalIndex, tfidfMatrix))
    ensures ok ==> tfidfMatrix.Keys == AllDocs(lines) && totalDocuments == |AllDocs(lines)|
  {
    positionalIndex, tfidfMatrix := map[], map[];
    ghost var start := Tables(map[], map[]);
    for i := 0 to |lines|
      invariant LinesEffect(Tables(positionalIndex, tfidfMatrix), lines[i..]) == LinesEffect(start, lines)
    {
      assert lines[i..][0] == lines[i] && lines[i..][1..] == lines[i + 1..];
      ok, positionalIndex, tfidfMatrix := LoadLine(positionalIndex, tfidfMatrix, lines[i]);
      if !ok {
        return false, positionalIndex, tfidfMatrix, 0;
      }
    }
    assert lines[|lines|..] == [];
    LinesPreserve(start, lines);
    ok := true;
    totalDocuments := |tfidfMatrix.Keys|;
  }

  // ---------------------------------------------------------------------
  // Weights, terms and the TF-IDF pass.

  /** `tf_weight`: 0 for a raw count below 1, `1 + log10(raw)` otherwise. */
  function TfWeight(tfRaw: int): (w: Weight)
    ensures w == ZeroWeight <==> tfRaw < 1
    ensures w != ZeroWeight ==> w == OnePlusLog10(tfRaw)
  {
    if tfRaw < 1 then ZeroWeight else OnePlusLog10(tfRaw)
  }

  /** The cell `calcTermsTF_IDF` computes for a term in one of its documents. */
  function CellFor(term: Term, doc: DocId): Cell
    requires doc in term.docFreq
  {
    TfIdf(TfWeight(|term.docFreq[doc]|), term.idf)
  }

  function RowOf(m: Matrix, doc: DocId): Row {
    if doc in m then m[doc] else map[]
  }

  /** What `calcTermsTF_IDF` promises, as a relation between its argument
      and its result. */
  ghost predicate CellsAdded(appendMap: Matrix, term: Term, r: Matrix) {
    r.Keys == appendMap.Keys + term.docFreq.Keys &&
    (forall d :: d in r && d !in term.docFreq ==> r[d] == appendMap[d]) &&
    (forall d :: d in term.docFreq ==>
      r[d] == if term.termName in RowOf(appendMap, d) then RowOf(appendMap, d)
              else RowOf(appendMap, d)[term.termName := CellFor(term, d)])
  }

  /** `calcTermsTF_IDF`: every document of the term gets a row, and the row
      gets the term's cell unless it already has one; nothing else changes. */
  method CalcTermsTfIdf(term: Term, appendMap: Matrix) returns (r: Matrix)
    ensures CellsAdded(appendMap, term, r)
  {
    r := appendMap;
    var pending := term.docFreq.Keys;
    while pending != {}
      invariant pending <= term.docFreq.Keys
      invariant r.Keys == appendMap.Keys + (term.docFreq.Keys - pending)
      invariant forall d :: d in r && (d !in term.docFreq || d in pending) ==> r[d] == appendMap[d]
      invariant forall d :: d in term.docFreq && d !in pending ==>
        r[d] == if term.termName in RowOf(appendMap, d) then RowOf(appendMap, d)
                else RowOf(appendMap, d)[term.termName := CellFor(term, d)]
      decreases pending
    {
      var doc :| doc in pending;
      var row := if doc in r then r[doc] else map[];
      if term.termName !in row {
        row := row[term.termName := CellFor(term, doc)];
      }
      r := r[doc := row];
      pending := pending - {doc};
    }
  }

  /** The `Term` that the term loop builds for an entry of the index. */
  function TermOf(pi: PosIndex, totalDocuments: int, name: string): Term
    requires name in pi
  {
    Term(name, Log10Ratio(totalDocuments, |pi[name]|), pi[name])
  }

  /** The row of document `d` once the terms of `done` are through: exactly
      their cells for the terms that occur in `d`. */
  ghost predicate RowBuilt(pi: PosIndex, totalDocuments: int, done: set<string>, d: DocId, row: Row) {
    (forall t :: t in row <==> t in done && t in pi && d in pi[t]) &&
    (forall t :: t in row ==> t in pi && d in pi[t] && row[t] == CellFor(TermOf(pi, totalDocuments, t), d))
  }

  /** After the terms of `done`: one `Term` each. */
  ghost predicate TermsMade(pi: PosIndex, totalDocuments: int, done: set<string>, terms: map<string, Term>) {
    done <= pi.Keys && terms.Keys == done &&
    forall t :: t in terms ==> terms[t] == TermOf(pi, totalDocuments, t)
  }

  /** After the terms of `done`: every row built. */
  ghost predicate RowsBuilt(pi: PosIndex, tm: Matrix, totalDocuments: int, done: set<string>, matrix: Matrix) {
    matrix.Keys == tm.Keys &&
    forall d :: d in matrix ==> RowBuilt(pi, totalDocuments, done, d, matrix[d])
  }

  /** After the terms of `done`: one `Term` each, and every row built. */
  ghost predicate TermsBuilt(pi: PosIndex, tm: Matrix, totalDocuments: int, done: set<string>,
                             terms: map<string, Term>, matrix: Matrix) {
    TermsMade(pi, totalDocuments, done, terms) && RowsBuilt(pi, tm, totalDocuments, done, matrix)
  }

  lemma RowGains(pi: PosIndex, totalDocuments: int, done: set<string>, d: DocId, row: Row, name: string)
    requires RowBuilt(pi, totalDocuments, done, d, row)
    requires name in pi && name !in done && d in pi[name]
    ensures name !in row
    ensures RowBuilt(pi, totalDocuments, done + {name}, d, row[name := CellFor(TermOf(pi, totalDocuments, name), d)])
  {
  }

  lemma RowKeeps(pi: PosIndex, totalDocuments: int, done: set<string>, d: DocId, row: Row, name: string)
    requires RowBuilt(pi, totalDocuments, done, d, row)
    requires name in pi && d !in pi[name]
    ensures RowBuilt(pi, totalDocuments, done + {name}, d, row)
  {
  }

  /** One step of the term loop keeps the row of `d` built. */
  lemma RowStep(pi: PosIndex, totalDocuments: int, done: set<string>,
                matrix: Matrix, name: string, matrix': Matrix, d: DocId)
    requires d in matrix && RowBuilt(pi, totalDocuments, done, d, matrix[d])
    requires name in pi && name !in done
    requires CellsAdded(matrix, TermOf(pi, totalDocuments, name), matrix')
    requires d in matrix'
    ensures RowBuilt(pi, totalDocuments, done + {name}, d, matrix'[d])
  {
    var term := TermOf(pi, totalDocuments, name);
    if d in term.docFreq {
      RowGains(pi, totalDocuments, done, d, matrix[d], name);
      assert RowOf(matrix, d) == matrix[d];
    } else {
      RowKeeps(pi, totalDocuments, done, d, matrix[d], name);
    }
  }

  /** One step of the term loop keeps every row built. */
  lemma RowsStep(pi: PosIndex, tm: Matrix, totalDocuments: int, done: set<string>,
                 matrix: Matrix, name: string, matrix': Matrix)
    requires Loaded(Tables(pi, tm)) && RowsBuilt(pi, tm, totalDocuments, done, matrix)
    requires name in pi && name !in done
    requires CellsAdded(matrix, TermOf(pi, totalDocuments, name), matrix')
    ensures RowsBuilt(pi, tm, totalDocuments, done + {name}, matrix')
  {
    assert pi[name].Keys <= tm.Keys;
    forall d | d in matrix'
      ensures RowBuilt(pi, totalDocuments, done + {name}, d, matrix'[d])
    {
      RowStep(pi, totalDocuments, done, matrix, name, matrix', d);
    }
  }

  /** One step of the term loop keeps `TermsBuilt`. */
  lemma TermStep(pi: PosIndex, tm: Matrix, totalDocuments: int, done: set<string>,
                 terms: map<string, Term>, matrix: Matrix, name: string, matrix': Matrix)
    requires Loaded(Tables(pi, tm))
    requires TermsBuilt(pi, tm, totalDocuments, done, terms, matrix)
    requires name in pi && name !in done
    requires CellsAdded(matrix, TermOf(pi, totalDocuments, name), matrix')
    ensures TermsBuilt(pi, tm, totalDocuments, done + {name}, terms[name := TermOf(pi, totalDocuments, name)], matrix')
  {
    RowsStep(pi, tm, totalDocuments, done, matrix, name, matrix');
    TermsStep(pi, totalDocuments, done, terms, name);
  }

  lemma TermsStep(pi: PosIndex, totalDocuments: int, done: set<string>, terms: map<string, Term>, name: string)
    requires TermsMade(pi, totalDocuments, done, terms) && name in pi
    ensures TermsMade(pi, totalDocuments, done + {name}, terms[name := TermOf(pi, totalDocuments, name)])
  {
  }

  /** Before the term loop nothing is built and every row is empty. */
  lemma TermsStart(pi: PosIndex, tm: Matrix, totalDocuments: int)
    requires Loaded(Tables(pi, tm))
    ensures TermsBuilt(pi, tm, totalDocuments, {}, map[], tm)
  {
    forall d | d in tm ensures RowBuilt(pi, totalDocuments, {}, d, tm[d]) {
      assert tm[d] == map[];
    }
  }

  /** One pass of the term loop of `main`: the `Term` of `name`, recorded
      first-wins, and its cells. */
  method AddTerm(positionalIndex: PosIndex, tfidfMatrix: Matrix, totalDocuments: int, ghost done: set<string>,
                 terms: map<string, Term>, matrix: Matrix, name: string)
    returns (terms': map<string, Term>, matrix': Matrix)
    requires Loaded(Tables(positionalIndex, tfidfMatrix))
    requires TermsBuilt(positionalIndex, tfidfMatrix, totalDocuments, done, terms, matrix)
    requires name in positionalIndex && name !in done
    ensures TermsBuilt(positionalIndex, tfidfMatrix, totalDocuments, done + {name}, terms', matrix')
  {
    var docFreqMap := positionalIndex[name];
    var newTerm := Term(name, Log10Ratio(totalDocuments, |docFreqMap|), docFreqMap);
    assert newTerm == TermOf(positionalIndex, totalDocuments, name);
    assert name !in terms by {
      assert TermsMade(positionalIndex, totalDocuments, done, terms);
    }
    terms' := terms;
    if newTerm.termName !in terms' {
      terms' := terms'[newTerm.termName := newTerm];
    }
    matrix' := CalcTermsTfIdf(newTerm, matrix);
    TermStep(positionalIndex, tfidfMatrix, totalDocuments, done, terms, matrix, name, matrix');
  }

  /** The term loop of `main` (after `totalDocuments`): one `Term` per entry of
      the index with IDF `log10(totalDocuments / df)`, and its cells in the
      matrix. Starting from the empty rows the loader leaves, each row ends
      up holding exactly the cells of the terms that occur in its document. */
  method BuildTerms(positionalIndex: PosIndex, tfidfMatrix: Matrix, totalDocuments: int)
    returns (terms: map<string, Term>, matrix: Matrix)
    requires Loaded(Tables(positionalIndex, tfidfMatrix))
    ensures TermsBuilt(positionalIndex, tfidfMatrix, totalDocuments, positionalIndex.Keys, terms, matrix)
  {
    terms, matrix := map[], tfidfMatrix;
    var pending := positionalIndex.Keys;
    ghost var done: set<string> := {};
    TermsStart(positionalIndex, tfidfMatrix, totalDocuments);
    while pending != {}
      invariant done + pending == positionalIndex.Keys && done !! pending
      invariant TermsBuilt(positionalIndex, tfidfMatrix, totalDocuments, done, terms, matrix)
      decreases pending
    {
      var name :| name in pending;
      terms, matrix := AddTerm(positionalIndex, tfidfMatrix, totalDocuments, done, terms, matrix, name);
      MoveOne(done, pending, positionalIndex.Keys, name);
      done, pending := done + {name}, pending - {name};
    }
    assert done == positionalIndex.Keys;
  }

  /** Moving one element from `pending` to `done` keeps the two a partition. */
  lemma MoveOne<T>(done: set<T>, pending: set<T>, all: set<T>, x: T)
    requires done + pending == all && done !! pending && x in pending
    ensures (done + {x}) + (pending - {x}) == all && (done + {x}) !! (pending - {x})
  {
  }

  /** Every IDF of a loaded index divides the document count by a document
      frequency between 1 and that count. */
  lemma IdfInRange(t: Tables, term: string)
    requires Loaded(t) && term in t.index
    ensures 1 <= |t.index[term]| <= |t.matrix.Keys|
  {
    var docs := t.index[term];
    var d :| d in docs;
    assert d in docs.Keys;
    SubsetCard(docs.Keys, t.matrix.Keys);
  }

  lemma {:induction false} SubsetCard<T>(a: set<T>, b: set<T>)
    requires a <= b
    ensures |a| <= |b|
    decreases |a|
  {
    if a != {} {
      var x :| x in a;
      SubsetCard(a - {x}, b - {x});
    }
  }

  // ---------------------------------------------------------------------
  // Table layout.

  /** `padString`: a string longer than the column is cut to `width - 3`
      characters and ends in "..."; a shorter one is padded with spaces on the
      right. Either way the result is exactly `width` long. */
  function PadString(str: string, width: int): (r: string)
    requires width >= 1
    requires |str| > width ==> width >= 3
    ensures |r| == width
    ensures |str| > width ==> r[..width - 3] == str[..width - 3] && r[width - 3..] == "..."
    ensures |str| <= width ==> r[..|str|] == str && forall k :: |str| <= k < width ==> r[k] == ' '
  {
    if |str| > width then str[..width - 3] + "..."
    else str + seq(width - |str|, _ => ' ')
  }
}
