/** The boolean query parser of the phrase query engine: the fixed list of
    operators, the first-occurrence split on `" op "`, and the tree that the
    recursion of `processQuery` walks. */
module QueryParser {
  import opened JavaText

  /** The operators in the order they are tried. */
  const Operators: seq<string> := ["and not", "but not", "or not", "and", "or"]

  /** The form an operator must take in a query: surrounded by single spaces. */
  function Delimited(op: string): string {
    " " + op + " "
  }

  /** The loop of `containsOperator` from the `k`-th operator on. */
  function ContainsOperatorFrom(query: string, k: nat): (r: bool)
    ensures r <==> exists j :: k <= j < |Operators| && Contains(query, Delimited(Operators[j]))
    decreases |Operators| - k
  {
    if k >= |Operators| then false
    else if Contains(query, Delimited(Operators[k])) then true
    else ContainsOperatorFrom(query, k + 1)
  }

  /** `containsOperator`: some operator occurs, delimited, in the query. */
  function ContainsOperator(query: string): (r: bool)
    ensures r <==> exists j :: 0 <= j < |Operators| && Contains(query, Delimited(Operators[j]))
  {
    ContainsOperatorFrom(query, 0)
  }

  /** The loop of `findOperator` from the `k`-th operator on. */
  function FindOperatorFrom(query: string, k: nat): (op: string)
    ensures op == "" <==> forall j :: k <= j < |Operators| ==> !Contains(query, Delimited(Operators[j]))
    ensures op != "" ==>
      exists j :: k <= j < |Operators| && op == Operators[j] && Contains(query, Delimited(op)) &&
        forall i :: k <= i < j ==> !Contains(query, Delimited(Operators[i]))
    decreases |Operators| - k
  {
    if k >= |Operators| then ""
    else if Contains(query, Delimited(Operators[k])) then Operators[k]
    else FindOperatorFrom(query, k + 1)
  }

  /** `findOperator`: the first operator of the list that occurs, or "" exactly
      when `containsOperator` is false. */
  function FindOperator(query: string): (op: string)
    ensures op == "" <==> !ContainsOperator(query)
    ensures op != "" ==>
      exists j :: 0 <= j < |Operators| && op == Operators[j] && Contains(query, Delimited(op)) &&
        forall i :: 0 <= i < j ==> !Contains(query, Delimited(Operators[i]))
  {
    FindOperatorFrom(query, 0)
  }

  /** `splitQuery`: cut at the first occurrence of `" op "`. The two halves
      put back around it give the query, the left half holds no occurrence, and
      both are shorter than the query. */
  function SplitQuery(query: string, op: string): (parts: (string, string))
    requires Contains(query, Delimited(op))
    ensures parts.0 + Delimited(op) + parts.1 == query
    ensures !Contains(parts.0, Delimited(op))
    ensures OccursAt(query, Delimited(op), |parts.0|)
    ensures forall k :: 0 <= k < |parts.0| ==> !OccursAt(query, Delimited(op), k)
    ensures |parts.0| < |query| && |parts.1| < |query|
  {
    var d := Delimited(op);
    var index := IndexOf(query, d);
    var left, right := query[..index], query[index + |op| + 2..];
    assert query == left + query[index..index + |d|] + right;
    NoOccurrenceBeforeFirst(query, d);
    (left, right)
  }

  lemma NoOccurrenceBeforeFirst(s: string, sub: string)
    requires |sub| > 0 && Contains(s, sub)
    ensures !Contains(s[..IndexOf(s, sub)], sub)
  {
    var left := s[..IndexOf(s, sub)];
    if Contains(left, sub) {
      var k := IndexOf(left, sub);
      assert OccursAt(left, sub, k);
      assert left[k..k + |sub|] == s[k..k + |sub|];
      assert OccursAt(s, sub, k) && k < IndexOf(s, sub);
    }
  }

  /** A query as `processQuery` reads it: a phrase, or an operator applied to
      the queries on its left and right. */
  datatype Query = Phrase(text: string) | Binary(op: string, left: Query, right: Query)

  /** The recursion of `processQuery`, with the evaluation left out: a query
      without operator becomes its trimmed self; otherwise it is split at the
      operator `findOperator` picks and both halves are trimmed and parsed. */
  function Parse(query: string): Query
    decreases |query|
  {
    if !ContainsOperator(query) then Phrase(Trim(query))
    else
      var op := FindOperator(query);
      var parts := SplitQuery(query, op);
      Binary(op, Parse(Trim(parts.0)), Parse(Trim(parts.1)))
  }

  /** Every operator node holds one of the five operators, and every leaf is
      trimmed and holds none. */
  ghost predicate WellFormed(q: Query) {
    match q
    case Phrase(t) => IsTrimmed(t) && !ContainsOperator(t)
    case Binary(op, l, r) => op in Operators && WellFormed(l) && WellFormed(r)
  }

  lemma NoOperatorAfterTrim(query: string)
    requires !ContainsOperator(query)
    ensures !ContainsOperator(Trim(query))
  {
    var lo := TrimLo(query, 0);
    var hi := TrimHi(query, lo, |query|);
    assert Trim(query) == query[lo..hi];
    forall j | 0 <= j < |Operators| ensures !Contains(Trim(query), Delimited(Operators[j])) {
      if Contains(query[lo..hi], Delimited(Operators[j])) {
        ContainsInSlice(query, lo, hi, Delimited(Operators[j]));
      }
    }
  }

  /** Parsing always yields a well-formed tree, so the `default` branch of
      `applyOperator` is never reached from `processQuery`. */
  lemma {:induction false} ParseWellFormed(query: string)
    ensures WellFormed(Parse(query))
    decreases |query|
  {
    if !ContainsOperator(query) {
      TrimIsTrimmed(query);
      NoOperatorAfterTrim(query);
    } else {
      var parts := SplitQuery(query, FindOperator(query));
      ParseWellFormed(Trim(parts.0));
      ParseWellFormed(Trim(parts.1));
    }
  }

  /** The guard at the top of `search`: the lowercased, trimmed query is one of
      the operators and nothing else. */
  predicate IsBareOperator(query: string) {
    Trim(Lower(query)) in Operators
  }

  lemma FindOperatorExample()
    ensures FindOperator("a or b and c") == "and"
  {
    var q := "a or b and c";
    assert Operators[0] == "and not" && Operators[1] == "but not" && Operators[2] == "or not" && Operators[3] == "and";
    assert Delimited("and") == " and ";
    assert OccursAt(q, " and ", 6);
    AbsentChar(q, Delimited("and not"), 't');
    AbsentChar(q, Delimited("but not"), 't');
    AbsentChar(q, Delimited("or not"), 't');
    assert FindOperatorFrom(q, 3) == "and";
  }

  lemma IndexExample()
    ensures IndexOf("a or b and c", " and ") == 6
  {
    var q := "a or b and c";
    MismatchAt(q, " and ", 0, 0);
    MismatchAt(q, " and ", 1, 1);
    MismatchAt(q, " and ", 2, 0);
    MismatchAt(q, " and ", 3, 0);
    MismatchAt(q, " and ", 4, 1);
    MismatchAt(q, " and ", 5, 0);
    assert OccursAt(q, " and ", 6);
    IndexOfIs(q, " and ", 6);
  }

  lemma SplitExample()
    ensures Contains("a or b and c", Delimited("and"))
    ensures SplitQuery("a or b and c", "and") == ("a or b", "c")
  {
    var q := "a or b and c";
    IndexExample();
    assert Delimited("and") == " and ";
    assert q[..6] == "a or b";
    assert q[6 + |"and"| + 2..] == "c";
  }

  lemma SubExample()
    ensures Contains("a or b", Delimited("or"))
    ensures FindOperator("a or b") == "or"
    ensures SplitQuery("a or b", "or") == ("a", "b")
  {
    var q := "a or b";
    assert Operators[0] == "and not" && Operators[1] == "but not" && Operators[2] == "or not";
    assert Operators[3] == "and" && Operators[4] == "or";
    assert Delimited("or") == " or ";
    AbsentChar(q, Delimited("and not"), 't');
    AbsentChar(q, Delimited("but not"), 't');
    AbsentChar(q, Delimited("or not"), 't');
    AbsentChar(q, Delimited("and"), 'n');
    MismatchAt(q, " or ", 0, 0);
    assert OccursAt(q, " or ", 1);
    IndexOfIs(q, " or ", 1);
    assert FindOperatorFrom(q, 4) == "or";
    assert q[..1] == "a" && q[1 + |"or"| + 2..] == "b";
  }

  /** A single letter holds no operator. */
  lemma LetterIsPhrase(c: char)
    ensures !ContainsOperator([c])
    ensures Parse([c]) == Phrase(Trim([c]))
  {
    forall j | 0 <= j < |Operators| ensures !Contains([c], Delimited(Operators[j])) {
      assert |Delimited(Operators[j])| > 1;
    }
  }

  /** "a or b and c" splits at "and" although "or" comes first in the text:
      the order of the operator list, not the text, decides, so "or" binds
      tighter here. */
  lemma PriorityBeatsTextOrder()
    ensures Parse("a or b and c") == Binary("and", Binary("or", Phrase("a"), Phrase("b")), Phrase("c"))
  {
    FindOperatorExample();
    SplitExample();
    SubExample();
    TrimFixesTrimmed("a or b");
    TrimFixesTrimmed("a");
    TrimFixesTrimmed("b");
    TrimFixesTrimmed("c");
    LetterIsPhrase('a');
    LetterIsPhrase('b');
    LetterIsPhrase('c');
  }
}
