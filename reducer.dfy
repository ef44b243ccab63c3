/** The reducer of the index-building job: for one term, the `doc@pos`
    values the mappers emitted are grouped per document into sorted sets of
    positions and written as `doc: p1,p2; doc2: p3`. */
module IndexReducer {
  import opened JavaText

  // ---------------------------------------------------------------------
  // Reading a value.

  /** `val.split("@")`, then `docPosition[0]` and
      `Integer.parseInt(docPosition[1])`; None where either throws. */
  function ParseValue(v: string): (r: Option<(string, Int32)>)
    ensures r.Some? ==> '@' !in r.value.0
  {
    var docPosition := SplitChar(v, '@');
    if |docPosition| < 2 then None
    else match ParseInt(docPosition[1])
      case None => None
      case Some(p) =>
        assert docPosition[0] in DropTrailingEmpty(SplitAt(v, '@'));
        Some((docPosition[0], p))
  }

  /** No value throws. */
  predicate AllParse(values: seq<string>)
    decreases |values|
  {
    values == [] || (AllParse(values[..|values| - 1]) && ParseValue(values[|values| - 1]).Some?)
  }

  /** When no value throws, none of them does: the `i`-th parses. */
  lemma {:induction false} AllParseAt(values: seq<string>, i: nat)
    requires AllParse(values) && i < |values|
    ensures ParseValue(values[i]).Some?
    decreases |values|
  {
    if i < |values| - 1 {
      var init := values[..|values| - 1];
      AllParseAt(init, i);
      assert init[i] == values[i];
    }
  }

  /** The documents named by the values. */
  function Docs(values: seq<string>): set<string>
    decreases |values|
  {
    if values == [] then {}
    else
      var last := ParseValue(values[|values| - 1]);
      Docs(values[..|values| - 1]) + if last.Some? then {last.value.0} else {}
  }

  /** The positions the values give for `doc`. */
  function PositionsOf(values: seq<string>, doc: string): set<Int32>
    decreases |values|
  {
    if values == [] then {}
    else
      var last := ParseValue(values[|values| - 1]);
      PositionsOf(values[..|values| - 1], doc) +
        if last.Some? && last.value.0 == doc then {last.value.1} else {}
  }

  /** The documents named are exactly those with at least one position. */
  lemma {:induction false} DocsHavePositions(values: seq<string>, doc: string)
    ensures doc in Docs(values) <==> PositionsOf(values, doc) != {}
    decreases |values|
  {
    if values != [] {
      DocsHavePositions(values[..|values| - 1], doc);
    }
  }

  // ---------------------------------------------------------------------
  // The TreeSet of positions, as the ascending sequence it iterates.

  predicate Ascending(s: seq<Int32>) {
    forall i, j :: 0 <= i < j < |s| ==> s[i] < s[j]
  }

  /** `TreeSet.add`: the new position goes to its place, a repeated one is
      dropped. */
  function Insert(s: seq<Int32>, x: Int32): (r: seq<Int32>)
    requires Ascending(s)
    ensures Ascending(r)
    ensures forall y :: y in r <==> y in s || y == x
    decreases |s|
  {
    if s == [] then [x]
    else if x < s[0] then
      ConsAscending(x, s);
      [x] + s
    else if x == s[0] then s
    else
      var rest := Insert(s[1..], x);
      TailAscending(s);
      ConsAscending(s[0], rest);
      assert s == [s[0]] + s[1..];
      [s[0]] + rest
  }

  lemma TailAscending(s: seq<Int32>)
    requires s != [] && Ascending(s)
    ensures Ascending(s[1..]) && forall y :: y in s[1..] ==> s[0] < y
    ensures forall y :: y in s[1..] <==> y in s && y != s[0]
  {
    assert forall k :: 0 <= k < |s| - 1 ==> s[1..][k] == s[k + 1];
    assert s == [s[0]] + s[1..];
  }

  /** Putting a smaller element in front keeps a sequence ascending. */
  lemma ConsAscending(a: Int32, r: seq<Int32>)
    requires Ascending(r) && forall y :: y in r ==> a < y
    ensures Ascending([a] + r)
  {
    var c := [a] + r;
    forall i, j | 0 <= i < j < |c| ensures c[i] < c[j] {
      assert c[j] == r[j - 1] && r[j - 1] in r;
      if i > 0 {
        assert c[i] == r[i - 1];
      }
    }
  }

  /** A set has one ascending sequence: two with the same elements are equal,
      so the text below does not depend on the order positions arrived in. */
  lemma {:induction false} AscendingUnique(s: seq<Int32>, t: seq<Int32>)
    requires Ascending(s) && Ascending(t)
    requires forall x :: x in s <==> x in t
    ensures s == t
    decreases |s|
  {
    assert s != [] ==> s[0] in t;
    assert t != [] ==> t[0] in s;
    if s != [] && t != [] {
      assert s[0] == t[0] by {
        assert s[0] in t && t[0] in s;
        var i :| 0 <= i < |t| && t[i] == s[0];
        var j :| 0 <= j < |s| && s[j] == t[0];
        assert t[0] <= t[i] && s[0] <= s[j];
      }
      TailAscending(s);
      TailAscending(t);
      assert s == [s[0]] + s[1..] && t == [t[0]] + t[1..];
      AscendingUnique(s[1..], t[1..]);
    }
  }

  // ---------------------------------------------------------------------
  // The text of the output.

  /** The texts of the positions, one `Integer.toString` each. */
  function Texts(ps: seq<Int32>): (r: seq<string>)
    ensures |r| == |ps| && forall k :: 0 <= k < |ps| ==> r[k] == IntToString(ps[k])
  {
    seq(|ps|, k requires 0 <= k < |ps| => IntToString(ps[k]))
  }

  /** `AbstractCollection.toString`: the elements between brackets,
      separated by ", ". */
  function CollectionString(ps: seq<Int32>): string {
    "[" + JoinWith(Texts(ps), ", ") + "]"
  }

  /** `replaceAll("[\\[\\] ]", "")`: every bracket and space removed. */
  function StripBrackets(s: string): (r: string)
    ensures |r| <= |s|
    decreases |s|
  {
    if s == [] then []
    else if s[0] == '[' || s[0] == ']' || s[0] == ' ' then StripBrackets(s[1..])
    else [s[0]] + StripBrackets(s[1..])
  }

  /** The positions as the reducer writes them: `p1,p2,p3`. */
  function PositionsText(ps: seq<Int32>): string {
    StripBrackets(CollectionString(ps))
  }

  /** One entry of the output: `doc: p1,p2`. */
  function EntryText(doc: string, ps: seq<Int32>): string {
    doc + ": " + PositionsText(ps)
  }

  /** The entries in the order the HashMap hands them out, joined by "; ". */
  function Serialise(order: seq<string>, groups: map<string, seq<Int32>>): string
    requires forall i :: 0 <= i < |order| ==> order[i] in groups
  {
    JoinWith(seq(|order|, i requires 0 <= i < |order| => EntryText(order[i], groups[order[i]])), "; ")
  }

  lemma {:induction false} StripConcat(a: string, b: string)
    ensures StripBrackets(a + b) == StripBrackets(a) + StripBrackets(b)
    decreases |a|
  {
    if a == [] {
      assert a + b == b;
    } else {
      assert (a + b)[0] == a[0] && (a + b)[1..] == a[1..] + b;
      StripConcat(a[1..], b);
    }
  }

  lemma {:induction false} StripKeeps(s: string)
    requires '[' !in s && ']' !in s && ' ' !in s
    ensures StripBrackets(s) == s
    decreases |s|
  {
    if s != [] {
      StripKeeps(s[1..]);
      assert s == [s[0]] + s[1..];
    }
  }

  lemma NumberStripped(i: int)
    ensures StripBrackets(IntToString(i)) == IntToString(i)
  {
    IntToStringChars(i);
    StripKeeps(IntToString(i));
  }

  lemma {:induction false} StripJoin(ps: seq<Int32>)
    ensures StripBrackets(JoinWith(Texts(ps), ", ")) == JoinWith(Texts(ps), ",")
    decreases |ps|
  {
    if |ps| == 1 {
      NumberStripped(ps[0]);
    } else if |ps| > 1 {
      var first, rest := IntToString(ps[0]), JoinWith(Texts(ps[1..]), ", ");
      assert Texts(ps)[1..] == Texts(ps[1..]);
      StripConcat(first + ", ", rest);
      StripConcat(first, ", ");
      NumberStripped(ps[0]);
      StripJoin(ps[1..]);
      assert StripBrackets(", ") == ",";
    }
  }

  /** The `replaceAll` trick writes the positions separated by bare commas. */
  lemma PositionsTextIsJoin(ps: seq<Int32>)
    ensures PositionsText(ps) == JoinWith(Texts(ps), ",")
  {
    var inner := JoinWith(Texts(ps), ", ");
    StripConcat("[" + inner, "]");
    StripConcat("[", inner);
    StripJoin(ps);
    assert StripBrackets("[") == [] && StripBrackets("]") == [];
  }

  lemma JoinAppend(parts: seq<string>, sep: string, p: string)
    requires parts != []
    ensures JoinWith(parts + [p], sep) == JoinWith(parts, sep) + sep + p
    decreases |parts|
  {
    if |parts| > 1 {
      assert (parts + [p])[1..] == parts[1..] + [p];
      JoinAppend(parts[1..], sep, p);
    }
  }

  /** Appending one entry: the separator goes in front of every entry but
      the first. */
  lemma SerialiseAppend(order: seq<string>, groups: map<string, seq<Int32>>, doc: string)
    requires forall i :: 0 <= i < |order| ==> order[i] in groups
    requires doc in groups
    ensures order == [] ==> Serialise(order + [doc], groups) == EntryText(doc, groups[doc])
    ensures order != [] ==>
      Serialise(order + [doc], groups) == Serialise(order, groups) + "; " + EntryText(doc, groups[doc])
    ensures |Serialise(order + [doc], groups)| > 0
  {
    var entries := seq(|order|, i requires 0 <= i < |order| => EntryText(order[i], groups[order[i]]));
    var order' := order + [doc];
    var entries' := seq(|order'|, i requires 0 <= i < |order'| => EntryText(order'[i], groups[order'[i]]));
    assert entries' == entries + [EntryText(doc, groups[doc])];
    if order != [] {
      JoinAppend(entries, "; ", EntryText(doc, groups[doc]));
    }
  }

  // ---------------------------------------------------------------------
  // reduce.

  predicate Distinct(s: seq<string>) {
    forall i, j :: 0 <= i < j < |s| ==> s[i] != s[j]
  }

  /** What the map of TreeSets holds after the values: one key per document
      named, each with that document's positions, ascending. */
  ghost predicate Grouped(values: seq<string>, groups: map<string, seq<Int32>>) {
    groups.Keys == Docs(values) &&
    forall d :: d in groups ==>
      Ascending(groups[d]) && forall p :: p in groups[d] <==> p in PositionsOf(values, d)
  }

  /** The positions recorded so far for `doc`. */
  function PositionsSoFar(groups: map<string, seq<Int32>>, doc: string): seq<Int32> {
    if doc in groups then groups[doc] else []
  }

  lemma DocsStep(values: seq<string>, i: nat)
    requires i < |values| && ParseValue(values[i]).Some?
    ensures Docs(values[..i + 1]) == Docs(values[..i]) + {ParseValue(values[i]).value.0}
  {
    var v := values[..i + 1];
    assert v != [] && v[..|v| - 1] == values[..i] && v[|v| - 1] == values[i];
  }

  lemma AllParseStep(values: seq<string>, i: nat)
    requires i < |values| && ParseValue(values[i]).Some?
    ensures AllParse(values[..i + 1]) == AllParse(values[..i])
  {
    var v := values[..i + 1];
    assert v != [] && v[..|v| - 1] == values[..i] && v[|v| - 1] == values[i];
  }

  lemma PositionsStep(values: seq<string>, i: nat, d: string)
    requires i < |values| && ParseValue(values[i]).Some?
    ensures PositionsOf(values[..i + 1], d) ==
      PositionsOf(values[..i], d) + if ParseValue(values[i]).value.0 == d then {ParseValue(values[i]).value.1} else {}
  {
    var v := values[..i + 1];
    assert v != [] && v[..|v| - 1] == values[..i] && v[|v| - 1] == values[i];
  }

  /** A value appended after `vs`: it parses as `(d, p)`, so nothing throws
      when nothing did before, `d` joins the documents and `p` joins the
      positions of `d`. */
  lemma AppendStep(vs: seq<string>, v: string, d: string, p: Int32)
    requires ParseValue(v) == Some((d, p))
    ensures AllParse(vs + [v]) == AllParse(vs)
    ensures Docs(vs + [v]) == Docs(vs) + {d}
    ensures forall doc :: PositionsOf(vs + [v], doc) == PositionsOf(vs, doc) + if doc == d then {p} else {}
  {
    var all := vs + [v];
    assert all != [] && all[..|all| - 1] == vs && all[|all| - 1] == v;
  }

  /** One more value read: its document joins the documents and its
      position joins that document's positions. */
  lemma GroupStep(values: seq<string>, i: nat, groups: map<string, seq<Int32>>, docId: string, position: Int32)
    requires i < |values| && ParseValue(values[i]) == Some((docId, position))
    requires Grouped(values[..i], groups)
    ensures Ascending(PositionsSoFar(groups, docId))
    ensures Grouped(values[..i + 1], groups[docId := Insert(PositionsSoFar(groups, docId), position)])
  {
    DocsStep(values, i);
    DocsHavePositions(values[..i], docId);
    var groups' := groups[docId := Insert(PositionsSoFar(groups, docId), position)];
    forall d | d in groups'
      ensures Ascending(groups'[d]) && forall p :: p in groups'[d] <==> p in PositionsOf(values[..i + 1], d)
    {
      PositionsStep(values, i, d);
      if d != docId {
        assert groups'[d] == groups[d];
      }
    }
  }

  /** The head of the first loop's body: `val.split("@")`, the document and
      `Integer.parseInt` of the position. `ok` is false where either throws. */
  method ReadValue(val: string) returns (ok: bool, docId: string, position: Int32)
    ensures ok <==> ParseValue(val).Some?
    ensures ok ==> ParseValue(val) == Some((docId, position))
  {
    var docPosition := SplitChar(val, '@');
    if |docPosition| < 2 {
      return false, "", 0;
    }
    docId := docPosition[0];
    var parsed := ParseInt(docPosition[1]);
    if parsed.None? {
      return false, docId, 0;
    }
    ok, position := true, parsed.value;
  }

  /** The first loop of `reduce`: every value split at `@` and its position
      added to the TreeSet of its document. `ok` is false where a value throws
      (no `@`, or no number after it). */
  method GroupPositions(values: seq<string>) returns (ok: bool, docPositionsMap: map<string, seq<Int32>>)
    ensures ok <==> AllParse(values)
    ensures ok ==> Grouped(values, docPositionsMap)
  {
    docPositionsMap := map[];
    for i := 0 to |values|
      invariant AllParse(values[..i])
      invariant Grouped(values[..i], docPositionsMap)
    {
      var parsed, docId, position := ReadValue(values[i]);
      if !parsed {
        if AllParse(values) {
          AllParseAt(values, i);
        }
        return false, docPositionsMap;
      }
      AllParseStep(values, i);
      GroupStep(values, i, docPositionsMap, docId, position);
      var positions := if docId in docPositionsMap then docPositionsMap[docId] else [];
      docPositionsMap := docPositionsMap[docId := Insert(positions, position)];
    }
    assert values[..|values|] == values;
    ok := true;
  }

  /** The second loop of `reduce`: the entries of the map, in the order the
      HashMap hands them out (`order`), written to the StringBuilder with
      "; " before every entry but the first. */
  method AggregatePositions(docPositionsMap: map<string, seq<Int32>>)
    returns (aggregatedPositions: string, order: seq<string>)
    ensures Distinct(order) && forall d :: d in order <==> d in docPositionsMap
    ensures aggregatedPositions == Serialise(order, docPositionsMap)
  {
    aggregatedPositions := "";
    var pending := docPositionsMap.Keys;
    order := [];
    while pending != {}
      invariant pending <= docPositionsMap.Keys
      invariant Distinct(order)
      invariant forall d :: d in order <==> d in docPositionsMap && d !in pending
      invariant aggregatedPositions == Serialise(order, docPositionsMap)
      invariant |aggregatedPositions| > 0 <==> order != []
      decreases pending
    {
      var key :| key in pending;
      if |aggregatedPositions| > 0 {
        aggregatedPositions := aggregatedPositions + "; ";
      }
      var entry := key + ": " + PositionsText(docPositionsMap[key]);
      aggregatedPositions := aggregatedPositions + entry;
      SerialiseAppend(order, docPositionsMap, key);
      order := order + [key];
      pending := pending - {key};
    }
  }

  /** `reduce` for one term. `ok` is false where a value throws. Otherwise
      `groups` is the map of TreeSets: one entry per document named, holding
      that document's distinct positions in ascending order; `result` is the
      text, one `doc: p1,p2` entry per document in the HashMap's `order`. */
  method Reduce(values: seq<string>)
    returns (ok: bool, result: string, order: seq<string>, groups: map<string, seq<Int32>>)
    ensures ok <==> AllParse(values)
    ensures ok ==> Grouped(values, groups)
    ensures ok ==> Distinct(order) && forall d :: d in order <==> d in groups
    ensures ok ==> result == Serialise(order, groups)
  {
    var docPositionsMap;
    ok, docPositionsMap := GroupPositions(values);
    groups := docPositionsMap;
    if !ok {
      return false, "", [], groups;
    }
    result, order := AggregatePositions(docPositionsMap);
  }
}
