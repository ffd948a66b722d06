/**
 What the project manager reads out of one session file: how many of its
 lines count as messages, and which lines decode as JSON records.
 */
module SessionFile {
  import opened Wrappers
  import opened PyStr
  import opened Json
  import opened Sequences

  /** `line.strip()` is truthy: the line holds something other than whitespace. */
  predicate NonBlank(line: string) {
    Strip(line) != ""
  }

  /** `json.loads(line.strip())`, with `None` where it raises `JSONDecodeError`. */
  function DecodeLine(decode: Decoder): string -> Option<Json> {
    (line: string) => decode(Strip(line))
  }

  /**
   The `message_count` of a session: one for each line whose stripped text is
   not empty, which is the number of lines holding a non-whitespace character.
   */
  function MessageCount(lines: seq<string>): (n: nat)
    ensures n == |TextLines(lines)|
  {
    CountWhereIsPositions(lines, NonBlank);
    assert PositionsWhere(lines, NonBlank) == TextLines(lines);
    CountWhere(lines, NonBlank)
  }

  /**
   The records `parse_session` collects: what each decodable line decodes to,
   in file order, one for each line whose stripped text decodes.
   */
  function ParseLines(lines: seq<string>, decode: Decoder): (r: seq<Json>)
    ensures |r| == CountWhere(lines, IsSome(DecodeLine(decode)))
  {
    FilterMapCountsAccepted(lines, DecodeLine(decode));
    FilterMap(lines, DecodeLine(decode))
  }

  /** The line has a character other than whitespace. */
  predicate HasText(line: string) {
    exists k :: 0 <= k < |line| && !IsSpace(line[k])
  }

  /** The positions of the lines that have a character other than whitespace. */
  ghost function TextLines(lines: seq<string>): set<int> {
    set i | 0 <= i < |lines| && HasText(lines[i])
  }

  /**
   Parsing keeps exactly the lines that decode, in file order: with `ix` the
   increasing positions of those lines, the k-th record is what line `ix[k]`
   decodes to, and there are no other records.
   */
  lemma ParseLinesIsDecodedSubsequence(lines: seq<string>, decode: Decoder)
    ensures var ix := SomePositions(lines, DecodeLine(decode));
            && |ParseLines(lines, decode)| == |ix|
            && (forall k, m :: 0 <= k < m < |ix| ==> ix[k] < ix[m])
            && (forall i :: 0 <= i < |lines| ==> (i in ix <==> decode(Strip(lines[i])).Some?))
            && forall k :: 0 <= k < |ix| ==> decode(Strip(lines[ix[k]])) == Some(ParseLines(lines, decode)[k])
  {
    FilterMapIsSubsequence(lines, DecodeLine(decode));
  }

  /** There are exactly as many records as there are positions of lines whose stripped text decodes. */
  lemma ParsedCountIsDecodableLines(lines: seq<string>, decode: Decoder)
    ensures |ParseLines(lines, decode)| == |PositionsWhere(lines, IsSome(DecodeLine(decode)))|
  {
    CountWhereIsPositions(lines, IsSome(DecodeLine(decode)));
  }

  /** A line that does not decode leaves no trace in the result. */
  lemma SkipsUndecodableLine(a: seq<string>, bad: string, b: seq<string>, decode: Decoder)
    requires decode(Strip(bad)) == None
    ensures ParseLines(a + [bad] + b, decode) == ParseLines(a + b, decode)
  {
    var f := DecodeLine(decode);
    FilterMapAppend(a + [bad], b, f);
    FilterMapAppend(a, [bad], f);
    FilterMapAppend(a, b, f);
    assert [bad][..0] == [];
  }

  /** A line that decodes contributes its value at its own place. */
  lemma KeepsDecodableLine(a: seq<string>, good: string, b: seq<string>, decode: Decoder)
    requires decode(Strip(good)).Some?
    ensures ParseLines(a + [good] + b, decode)
         == ParseLines(a, decode) + [decode(Strip(good)).value] + ParseLines(b, decode)
  {
    var f := DecodeLine(decode);
    FilterMapAppend(a + [good], b, f);
    FilterMapAppend(a, [good], f);
    assert [good][..0] == [];
  }

  /** A decoder that rejects the empty text never yields more records than there are messages. */
  lemma ParsedAtMostMessageCount(lines: seq<string>, decode: Decoder)
    requires RejectsEmpty(decode)
    ensures |ParseLines(lines, decode)| <= MessageCount(lines)
  {
    forall line: string | DecodeLine(decode)(line).Some?
      ensures NonBlank(line)
    {
    }
    FilterMapAtMostCount(lines, DecodeLine(decode), NonBlank);
  }
}
