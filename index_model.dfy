/** The in-memory structures that the index loader builds and the query
    engine reads: the positional index, the TF-IDF matrix and the Term
    records. The floating-point values (IDF, tf_weight, their product) are
    kept as the symbolic expressions the code evaluates, never as numbers. */
module IndexModel {
  import opened JavaText

  type DocId = string

  /** A term's positions in one document, as a Java `List<Integer>`. */
  type Positions = seq<Int32>

  /** term -> document -> positions (`Map<String, Map<String, List<Integer>>>`). */
  type PosIndex = map<string, map<DocId, Positions>>

  /** `Math.log10((double) totalDocuments / documentFrequency)`, unevaluated. */
  datatype Idf = Log10Ratio(totalDocuments: int, documentFrequency: int)

  /** What `tf_weight(raw)` returns: 0.0, or `1 + Math.log10(raw)` unevaluated. */
  datatype Weight = ZeroWeight | OnePlusLog10(raw: int)

  /** One TF-IDF cell: `tf_weight(raw) * idf`, unevaluated. */
  datatype Cell = TfIdf(tf: Weight, idf: Idf)

  /** term -> TF-IDF cell, the row of one document. */
  type Row = map<string, Cell>

  /** document -> row (`Map<String, Map<String, Double>>`). */
  type Matrix = map<DocId, Row>

  /** A term, its IDF and the document -> positions map it was built from
      (the fields of the `Term` holder class). */
  datatype Term = Term(termName: string, idf: Idf, docFreq: map<DocId, Positions>)

  /** `docs.getOrDefault(doc, Collections.emptyList())`. */
  function PositionsIn(docs: map<DocId, Positions>, doc: DocId): Positions {
    if doc in docs then docs[doc] else []
  }
}
