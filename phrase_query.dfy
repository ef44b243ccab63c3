/** The phrase query engine: the specification of what a boolean query
    returns (`PhraseDocs`, `Combine`, `Eval`), the mutable document sets the
    engine builds and combines in place, and the `PhraseQuery` object whose
    methods are proved against that specification. */
module PhraseQueryEngine {
  import opened JavaText
  import opened IndexModel
  import opened PhraseMatch
  import opened QueryParser

  // ---------------------------------------------------------------------
  // Specification.

  /** What `phrase.split(" ")` must give for `getDocumentsForTerm` not to
      fail on `terms[0]`: a phrase made of spaces alone splits to nothing. */
  predicate HasFirstWord(phrase: string) {
    ' ' in phrase ==> |SplitChar(phrase, ' ')| > 0
  }

  /** The documents `getDocumentsForTerm` returns. A phrase with a space is
      split on single spaces; the candidates are the documents of the first
      word's `Term`, and a candidate stays when every bigram of the chain
      succeeds. A phrase without a space gives the documents the positional
      index lists for it. */
  function PhraseDocs(index: PosIndex, termsMap: map<string, Term>, phrase: string): set<DocId>
    requires HasFirstWord(phrase)
  {
    if ' ' in phrase then
      var terms := SplitChar(phrase, ' ');
      if terms[0] in termsMap then
        set d | d in termsMap[terms[0]].docFreq && PhraseInDoc(index, d, terms)
      else {}
    else if phrase in index then index[phrase].Keys
    else {}
  }

  /** `applyOperator` on the values of its two sets; `universe` is the key set
      of the TF-IDF matrix that "or not" draws on. */
  function Combine(op: string, docs1: set<DocId>, docs2: set<DocId>, universe: set<DocId>): set<DocId> {
    if op == "and not" || op == "but not" then docs1 - docs2
    else if op == "or not" then docs1 + (universe - docs2)
    else if op == "or" then docs1 + docs2
    else if op == "and" then docs1 * docs2
    else {}
  }

  /** A trimmed phrase has a first word, and one with a space has at least two. */
  lemma TrimmedPhraseWords(phrase: string)
    requires IsTrimmed(phrase)
    ensures HasFirstWord(phrase)
    ensures ' ' in phrase ==> |SplitChar(phrase, ' ')| >= 2
  {
    if ' ' in phrase {
      SplitCharKeepsAll(phrase, ' ');
    }
  }

  /** What `processQuery` returns for a parsed query. */
  function Eval(index: PosIndex, termsMap: map<string, Term>, universe: set<DocId>, q: Query): set<DocId>
    requires WellFormed(q)
  {
    match q
    case Phrase(t) =>
      TrimmedPhraseWords(t);
      PhraseDocs(index, termsMap, t)
    case Binary(op, l, r) =>
      Combine(op, Eval(index, termsMap, universe, l), Eval(index, termsMap, universe, r), universe)
  }

  // ---------------------------------------------------------------------
  // Properties of the specification.

  /** Every document of a multi-word phrase is a document of its first word,
      and the phrase really occurs in it at consecutive positions. */
  lemma PhraseDocsSound(index: PosIndex, termsMap: map<string, Term>, phrase: string, d: DocId)
    requires HasFirstWord(phrase) && ' ' in phrase
    requires d in PhraseDocs(index, termsMap, phrase)
    ensures var terms := SplitChar(phrase, ' ');
      terms[0] in termsMap && d in termsMap[terms[0]].docFreq &&
      exists p :: OccursFrom(index, d, terms, p)
  {
    PhraseInDocSound(index, d, SplitChar(phrase, ' '));
  }

  /** The index and the terms only mention documents of the TF-IDF matrix, as
      the loader builds them. */
  ghost predicate DocsWithin(index: PosIndex, termsMap: map<string, Term>, universe: set<DocId>) {
    (forall t :: t in index ==> index[t].Keys <= universe) &&
    (forall t :: t in termsMap ==> termsMap[t].docFreq.Keys <= universe)
  }

  /** A query never returns a document outside the matrix. */
  lemma {:induction false} EvalWithinUniverse(index: PosIndex, termsMap: map<string, Term>, universe: set<DocId>, q: Query)
    requires WellFormed(q) && DocsWithin(index, termsMap, universe)
    ensures Eval(index, termsMap, universe, q) <= universe
  {
    match q
    case Phrase(t) =>
      TrimmedPhraseWords(t);
    case Binary(op, l, r) =>
      EvalWithinUniverse(index, termsMap, universe, l);
      EvalWithinUniverse(index, termsMap, universe, r);
  }

  /** Under a consistent index the operators relate to each other: "or not"
      keeps everything but the right side's own documents, "and not" and
      "but not" agree and share nothing with the right side, "or not" of the
      complement is "or", and a word outside the list gives nothing. */
  lemma CombineLaws(docs1: set<DocId>, docs2: set<DocId>, universe: set<DocId>)
    requires docs1 <= universe && docs2 <= universe
    ensures Combine("or not", docs1, docs2, universe) == universe - (docs2 - docs1)
    ensures Combine("and not", docs1, docs2, universe) == Combine("but not", docs1, docs2, universe)
    ensures Combine("and not", docs1, docs2, universe) * docs2 == {}
    ensures Combine("or not", docs1, universe - docs2, universe) == Combine("or", docs1, docs2, universe)
    ensures forall op :: op !in Operators ==> Combine(op, docs1, docs2, universe) == {}
  {
  }

  // ---------------------------------------------------------------------
  // The mutable sets.

  /** A `HashSet<String>` of document identifiers that the engine changes in
      place. */
  class DocSet {
    var elems: set<DocId>

    constructor (elems: set<DocId>)
      ensures this.elems == elems
    {
      this.elems := elems;
    }

    /** `addAll`. */
    method AddAll(other: DocSet)
      modifies this
      ensures elems == old(elems) + old(other.elems)
    {
      elems := elems + other.elems;
    }

    /** `retainAll`. */
    method RetainAll(other: DocSet)
      modifies this
      ensures elems == old(elems) * old(other.elems)
    {
      elems := elems * other.elems;
    }

    /** `removeAll`. */
    method RemoveAll(other: DocSet)
      modifies this
      ensures elems == old(elems) - old(other.elems)
    {
      elems := elems - other.elems;
    }
  }

  // ---------------------------------------------------------------------
  // The engine.

  class PhraseQuery {
    const positionalIndex: PosIndex
    const tfidfMatrix: Matrix
    const termsMap: map<string, Term>

    constructor (positionalIndex: PosIndex, tfidfMatrix: Matrix, terms: map<string, Term>)
      ensures this.positionalIndex == positionalIndex
      ensures this.tfidfMatrix == tfidfMatrix
      ensures this.termsMap == terms
    {
      this.positionalIndex := positionalIndex;
      this.tfidfMatrix := tfidfMatrix;
      this.termsMap := terms;
    }

    /** `isPhraseInOrder`: the two nested loops, with their `break` and early
        returns, compute the bigram check. */
    method IsPhraseInOrder(doc: DocId, term1: string, term2: string, startIndex: Int32) returns (r: Int32)
      ensures r == Bigram(positionalIndex, doc, term1, term2, startIndex)
    {
      if term1 !in positionalIndex || term2 !in positionalIndex {
        return -1;
      }
      var positionsTerm1 := PositionsIn(positionalIndex[term1], doc);
      var positionsTerm2 := PositionsIn(positionalIndex[term2], doc);
      if |positionsTerm1| == 0 || |positionsTerm2| == 0 {
        return -1;
      }
      ghost var p1, p2 := positionsTerm1, positionsTerm2;
      var a := 0;
      while a < |positionsTerm1|
        invariant 0 <= a <= |p1|
        invariant Scan(p1, p2, startIndex) == Scan(p1[a..], p2, startIndex)
      {
        var i := positionsTerm1[a];
        var b := 0;
        while b < |positionsTerm2|
          invariant 0 <= b <= |p2|
          invariant InnerScan(i, p2, startIndex) == InnerScan(i, p2[b..], startIndex)
        {
          var j := positionsTerm2[b];
          assert p2[b..][0] == j && p2[b..][1..] == p2[b + 1..];
          if j > Succ(i) {
            break;
          }
          if startIndex == 0 && j == Succ(i) {
            assert p1[a..][0] == i;
            return j;
          } else if j == Succ(i) && startIndex == i {
            assert p1[a..][0] == i;
            return j;
          }
          b := b + 1;
        }
        assert InnerScan(i, p2, startIndex).None?;
        assert p1[a..][0] == i && p1[a..][1..] == p1[a + 1..];
        a := a + 1;
      }
      return -1;
    }

    /** The bigram loop of `getDocumentsForTerm` for one document: `flag`
        ends true exactly when the phrase passes the chain. */
    method PhraseInOrder(doc: DocId, terms: seq<string>) returns (flag: bool)
      requires |terms| > 0
      ensures flag == PhraseInDoc(positionalIndex, doc, terms)
    {
      var endIndex: Int32 := 0;
      flag := false;
      var i := 0;
      while i < |terms| - 1
        invariant 0 <= i <= |terms| - 1
        invariant flag <==> i > 0
        invariant Chain(positionalIndex, doc, terms, 0) == Chain(positionalIndex, doc, terms[i..], endIndex)
      {
        assert terms[i..][0] == terms[i] && terms[i..][1] == terms[i + 1] && terms[i..][1..] == terms[i + 1..];
        endIndex := IsPhraseInOrder(doc, terms[i], terms[i + 1], endIndex);
        if endIndex > 0 {
          flag := true;
        } else {
          flag := false;
          break;
        }
        i := i + 1;
      }
    }

    /** `getDocumentsForTerm`: a new set holding the documents of the phrase. */
    method GetDocumentsForTerm(phrase: string) returns (matchedDocs: DocSet)
      requires HasFirstWord(phrase)
      ensures fresh(matchedDocs)
      ensures matchedDocs.elems == PhraseDocs(positionalIndex, termsMap, phrase)
    {
      matchedDocs := new DocSet({});
      if ' ' in phrase {
        var terms := SplitChar(phrase, ' ');
        if terms[0] in termsMap {
          var term := termsMap[terms[0]];
          var remaining := term.docFreq.Keys;
          while remaining != {}
            invariant remaining <= term.docFreq.Keys
            invariant forall d :: d in matchedDocs.elems <==>
              d in term.docFreq && d !in remaining && PhraseInDoc(positionalIndex, d, terms)
            decreases remaining
          {
            var doc :| doc in remaining;
            var flag := PhraseInOrder(doc, terms);
            if flag {
              matchedDocs.elems := matchedDocs.elems + {doc};
            }
            remaining := remaining - {doc};
          }
        }
      } else if phrase in positionalIndex {
        matchedDocs.elems := matchedDocs.elems + positionalIndex[phrase].Keys;
      }
    }

    /** `handleOr`: `docs1` becomes the union and is returned. */
    method HandleOr(docs1: DocSet, docs2: DocSet) returns (r: DocSet)
      modifies docs1
      ensures r == docs1 && docs1.elems == old(docs1.elems) + old(docs2.elems)
    {
      docs1.AddAll(docs2);
      return docs1;
    }

    /** `handleOrNot`: `docs1` gains every document of the matrix that is not
        in `docs2`, through a fresh copy of the matrix's key set. */
    method HandleOrNot(docs1: DocSet, docs2: DocSet) returns (r: DocSet)
      modifies docs1
      ensures r == docs1 && docs1.elems == old(docs1.elems) + (tfidfMatrix.Keys - old(docs2.elems))
    {
      var temp := new DocSet(tfidfMatrix.Keys);
      temp.RemoveAll(docs2);
      docs1.AddAll(temp);
      return docs1;
    }

    /** `handleAnd`: `docs1` becomes the intersection and is returned. */
    method HandleAnd(docs1: DocSet, docs2: DocSet) returns (r: DocSet)
      modifies docs1
      ensures r == docs1 && docs1.elems == old(docs1.elems) * old(docs2.elems)
    {
      docs1.RetainAll(docs2);
      return docs1;
    }

    /** `handleAndNot`: `docs1` loses the documents of `docs2` and is returned. */
    method HandleAndNot(docs1: DocSet, docs2: DocSet) returns (r: DocSet)
      modifies docs1
      ensures r == docs1 && docs1.elems == old(docs1.elems) - old(docs2.elems)
    {
      docs1.RemoveAll(docs2);
      return docs1;
    }

    /** `applyOperator`: one of the five operators updates `term1Docs` and
        returns it; anything else returns a new empty set. */
    method ApplyOperator(term1Docs: DocSet, term2Docs: DocSet, operator: string) returns (r: DocSet)
      modifies term1Docs
      ensures r.elems == Combine(operator, old(term1Docs.elems), old(term2Docs.elems), tfidfMatrix.Keys)
      ensures operator in Operators ==> r == term1Docs
      ensures operator !in Operators ==> fresh(r) && term1Docs.elems == old(term1Docs.elems)
    {
      if operator == "and not" || operator == "but not" {
        r := HandleAndNot(term1Docs, term2Docs);
      } else if operator == "or not" {
        r := HandleOrNot(term1Docs, term2Docs);
      } else if operator == "or" {
        r := HandleOr(term1Docs, term2Docs);
      } else if operator == "and" {
        r := HandleAnd(term1Docs, term2Docs);
      } else {
        r := new DocSet({});
      }
    }

    /** `processQuery`: recursion on the two trimmed halves of the split. */
    method ProcessQuery(query: string) returns (r: DocSet)
      ensures fresh(r)
      ensures WellFormed(Parse(query))
      ensures r.elems == Eval(positionalIndex, termsMap, tfidfMatrix.Keys, Parse(query))
      decreases |query|
    {
      ParseWellFormed(query);
      if !ContainsOperator(query) {
        TrimmedPhraseWords(Trim(query));
        TrimIsTrimmed(query);
        r := GetDocumentsForTerm(Trim(query));
        return;
      }
      var operator := FindOperator(query);
      var terms := SplitQuery(query, operator);
      var term1Docs := ProcessQuery(Trim(terms.0));
      var term2Docs := ProcessQuery(Trim(terms.1));
      r := ApplyOperator(term1Docs, term2Docs, operator);
    }

    /** `evaluateQuery`. */
    method EvaluateQuery(query: string) returns (r: DocSet)
      ensures fresh(r)
      ensures WellFormed(Parse(query))
      ensures r.elems == Eval(positionalIndex, termsMap, tfidfMatrix.Keys, Parse(query))
    {
      r := ProcessQuery(query);
    }

    /** `getTermFrequencyInQuery`: how many query terms equal `term`. */
    method GetTermFrequencyInQuery(term: string, queryTerms: seq<string>) returns (frequency: nat)
      ensures frequency == multiset(queryTerms)[term]
    {
      frequency := 0;
      for k := 0 to |queryTerms|
        invariant frequency == multiset(queryTerms[..k])[term]
      {
        assert queryTerms[..k + 1] == queryTerms[..k] + [queryTerms[k]];
        if queryTerms[k] == term {
          frequency := frequency + 1;
        }
      }
      assert queryTerms[..|queryTerms|] == queryTerms;
    }

    /** `rankDocuments` with the scores left out: every matched document
        once, in an order the model leaves open. */
    method RankDocuments(matchedDocuments: set<DocId>) returns (ranked: seq<DocId>)
      ensures forall d :: d in ranked <==> d in matchedDocuments
      ensures forall i, j :: 0 <= i < j < |ranked| ==> ranked[i] != ranked[j]
    {
      var pending := matchedDocuments;
      ranked := [];
      while pending != {}
        invariant pending <= matchedDocuments
        invariant forall d :: d in ranked <==> d in matchedDocuments && d !in pending
        invariant forall i, j :: 0 <= i < j < |ranked| ==> ranked[i] != ranked[j]
        decreases pending
      {
        var docId :| docId in pending;
        ranked := ranked + [docId];
        pending := pending - {docId};
      }
    }

    /** `search` without its scores: a bare operator gives the empty list;
        any other query gives the documents of the lowercased query, each
        exactly once. */
    method Search(query: string) returns (result: seq<DocId>)
      ensures IsBareOperator(query) ==> result == []
      ensures !IsBareOperator(query) ==>
        WellFormed(Parse(Lower(query))) &&
        (forall d :: d in result <==> d in Eval(positionalIndex, termsMap, tfidfMatrix.Keys, Parse(Lower(query))))
      ensures forall i, j :: 0 <= i < j < |result| ==> result[i] != result[j]
    {
      var lowered := Lower(query);
      ghost var trimmed := Trim(lowered);
      for k := 0 to |Operators|
        invariant trimmed !in Operators[..k]
      {
        if Trim(lowered) == Operators[k] {
          return [];
        }
        assert Operators[..k + 1] == Operators[..k] + [Operators[k]];
      }
      assert Operators[..|Operators|] == Operators;
      var matchedDocuments := EvaluateQuery(lowered);
      result := RankDocuments(matchedDocuments.elems);
    }
  }
}
