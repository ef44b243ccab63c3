/** The mapper of the index-building job: every piece of a line's `\s+`
    split becomes one record, keyed by the lowercased piece, whose value names
    the file and the piece's index in the line. */
module IndexMapper {
  import opened JavaText

  /** One `context.write(word, position)`. */
  datatype Record = Record(key: string, value: string)

  /** The value of the `i`-th record of a file: `docId + "@" + i`. */
  function PositionValue(docId: string, i: nat): string {
    docId + "@" + IntToString(i)
  }

  predicate NoSpace(s: string) {
    forall k :: 0 <= k < |s| ==> !IsSpace(s[k])
  }

  predicate NoUpper(s: string) {
    forall k :: 0 <= k < |s| ==> !('A' <= s[k] <= 'Z')
  }

  /** Every piece of the split is free of `\s`. */
  lemma WordsHaveNoSpace(value: string)
    ensures forall w :: w in SplitWhitespace(value) ==> NoSpace(w)
  {
    if value != [] {
      var pieces := SplitAtSpaces(value);
      var words := DropTrailingEmpty(pieces);
      assert forall k :: 0 <= k < |words| ==> words[k] == pieces[k];
    }
  }

  /** The lowercased pieces are free of `\s` and of upper-case ASCII
      letters. */
  lemma KeysClean(value: string)
    ensures forall k :: 0 <= k < |SplitWhitespace(value)| ==>
      NoSpace(Lower(SplitWhitespace(value)[k])) && NoUpper(Lower(SplitWhitespace(value)[k]))
  {
    var words := SplitWhitespace(value);
    WordsHaveNoSpace(value);
    forall k | 0 <= k < |words| ensures NoSpace(Lower(words[k])) && NoUpper(Lower(words[k])) {
      assert words[k] in words;
    }
  }

  /** `map`: `docId` is the name of the file the line comes from. One record
      per piece of the split, in order, whose key is the lowercased piece
      (free of `\s` and of upper-case letters) and whose value carries the
      piece's index, counted from 0 on every call. */
  method Map(docId: string, value: string) returns (records: seq<Record>)
    ensures |records| == |SplitWhitespace(value)|
    ensures forall i :: 0 <= i < |records| ==>
      records[i] == Record(Lower(SplitWhitespace(value)[i]), PositionValue(docId, i))
    ensures forall i :: 0 <= i < |records| ==> NoSpace(records[i].key) && NoUpper(records[i].key)
  {
    records := Emit(docId, SplitWhitespace(value));
    KeysClean(value);
  }

  /** The loop of `map` over the pieces `words`: the `i`-th piece gives the
      record of its lowercased text and position `i`. */
  method Emit(docId: string, words: seq<string>) returns (records: seq<Record>)
    ensures |records| == |words|
    ensures forall i :: 0 <= i < |records| ==> records[i] == Record(Lower(words[i]), PositionValue(docId, i))
  {
    records := [];
    for i := 0 to |words|
      invariant |records| == i
      invariant forall k :: 0 <= k < i ==> records[k] == Record(Lower(words[k]), PositionValue(docId, k))
    {
      var word := Lower(words[i]);
      var position := PositionValue(docId, i);
      records := records + [Record(word, position)];
    }
  }

  /** A line that starts with whitespace gives an empty first piece, so the
      first real word of such a line is at position 1. */
  lemma LeadingSpaceGivesEmptyWord(s: string)
    requires s != [] && IsSpace(s[0])
    ensures SplitWhitespace(s) == [] || SplitWhitespace(s)[0] == ""
  {
    assert WordEnd(s, 0) == 0;
    assert SplitAtSpaces(s)[0] == s[..0];
  }

  /** Trailing whitespace gives no piece: the last piece of a non-empty line
      is never empty. */
  lemma NoTrailingEmptyWord(s: string)
    requires s != []
    ensures SplitWhitespace(s) == [] || SplitWhitespace(s)[|SplitWhitespace(s)| - 1] != ""
  {
  }

  /** A line of whitespace only gives no record at all: it splits into two
      empty pieces, and both are trailing. */
  lemma BlankLineGivesNoWords(s: string)
    requires s != [] && forall k :: 0 <= k < |s| ==> IsSpace(s[k])
    ensures SplitWhitespace(s) == []
  {
    assert WordEnd(s, 0) == 0;
    assert SpaceEnd(s, 0) == |s|;
    assert s[|s|..] == "";
    assert SplitAtSpaces("") == [""];
    assert SplitAtSpaces(s) == ["", ""];
    assert DropTrailingEmpty(["", ""]) == DropTrailingEmpty([""]);
  }
}
