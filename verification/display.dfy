/** The text the university classes render: a course's one-line summary, the
    comma-separated name lists of a department and multi-line info blocks. */
module Display {
  import Text
  import Numbers
  import opened Outcomes

  /** f"{n}/{cap}": the roster size over the capacity. */
  function Ratio(enrolled: nat, capacity: int): string {
    Numbers.NatToString(enrolled) + "/" + Numbers.IntToString(capacity)
  }

  /** Course.__str__: f"{code} - {name} ({len(roster)}/{max_capacity})". */
  function CourseSummary(code: string, name: string, enrolled: nat, capacity: int): (s: string)
    ensures |s| > |code| + 3 + |name| && s[..|code|] == code && s[|s| - 1] == ')'
    ensures |s| == |code| + |name| + |Ratio(enrolled, capacity)| + 6
    ensures s[..|code| + |name| + 3] == code + " - " + name
    ensures s[|s| - |Ratio(enrolled, capacity)| - 3..] == " (" + Ratio(enrolled, capacity) + ")"
  {
    var ratio := Ratio(enrolled, capacity);
    var head, tail := code + " - " + name, " (" + ratio + ")";
    assert head + tail == code + " - " + name + " (" + ratio + ")";
    assert |head + tail| - |ratio| - 3 == |head|;
    assert (head + tail)[|head|..] == tail;
    assert (head + tail)[..|head|] == head;
    head + tail
  }

  /** The ratio reads back: split at its slash, it gives the decimal digits of the
      roster size and the text of the capacity, which denote exactly those numbers. */
  lemma RatioReadsBack(enrolled: nat, capacity: int)
    ensures Text.Split(Ratio(enrolled, capacity), '/')
      == [Numbers.NatToString(enrolled), Numbers.IntToString(capacity)]
    ensures Numbers.DigitsValue(Numbers.NatToString(enrolled)) == enrolled
    ensures Numbers.ParseNumber(Numbers.IntToString(capacity)) == Some(capacity as real)
  {
    var a, b := Numbers.NatToString(enrolled), Numbers.IntToString(capacity);
    assert '/' !in a && '/' !in b;
    assert Text.Join("/", [a, b]) == a + "/" + b;
    Text.SplitJoin([a, b], '/');
    Numbers.DigitsRoundTrip(enrolled);
    Numbers.ParseIntString(capacity);
  }

  /** ", ".join(parts) or "None": the joined names, or "None" when they join to
      nothing. */
  function JoinOrNone(parts: seq<string>): (s: string)
    ensures s != []
    ensures parts == [] ==> s == "None"
    ensures (exists k :: 0 <= k < |parts| && parts[k] != []) ==> s == Text.Join(", ", parts)
  {
    var joined := Text.Join(", ", parts);
    if joined == [] then
      JoinedEmpty(parts);
      "None"
    else joined
  }

  /** Text joined with a non-empty separator is empty only when every part is empty. */
  lemma {:induction false} JoinedEmpty(parts: seq<string>)
    requires Text.Join(", ", parts) == []
    ensures forall k :: 0 <= k < |parts| ==> parts[k] == []
  {
    if |parts| >= 2 {
      assert false;
    }
  }

  /** "\n".join(fields): an info block, one field per line. */
  function Lines(fields: seq<string>): string {
    Text.Join("\n", fields)
  }

  /** Fields free of line breaks come back, in order, when the block is split into its
      lines. */
  lemma LinesSplit(fields: seq<string>)
    requires |fields| >= 1
    requires forall k :: 0 <= k < |fields| ==> '\n' !in fields[k]
    ensures Text.Split(Lines(fields), '\n') == fields
  {
    Text.SplitJoin(fields, '\n');
  }
}
