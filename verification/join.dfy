/**
 Joining strings with a separator, and the "append each part followed by the
 separator" string that a builder loop produces before it trims the final separator.
 */
module Join {

  /** `parts` separated by `sep`, with no separator before the first or after the last. */
  function Join(parts: seq<string>, sep: string): string
    decreases |parts|
  {
    if |parts| == 0 then ""
    else if |parts| == 1 then parts[0]
    else Join(parts[..|parts| - 1], sep) + sep + parts[|parts| - 1]
  }

  /** Every part followed by `sep`, the separator after the last part included. */
  function Terminated(parts: seq<string>, sep: string): string
    decreases |parts|
  {
    if |parts| == 0 then "" else Terminated(parts[..|parts| - 1], sep) + parts[|parts| - 1] + sep
  }

  /** Appending one part to the terminated form appends it and one separator. */
  lemma TerminatedSnoc(parts: seq<string>, part: string, sep: string)
    ensures Terminated(parts + [part], sep) == Terminated(parts, sep) + part + sep
  {
    assert (parts + [part])[..|parts|] == parts;
  }

  /** A separator-terminated concatenation is the join plus one trailing separator. */
  lemma {:induction false} TerminatedIsJoinPlusSep(parts: seq<string>, sep: string)
    requires |parts| >= 1
    ensures Terminated(parts, sep) == Join(parts, sep) + sep
    decreases |parts|
  {
    var init := parts[..|parts| - 1];
    if |parts| == 1 {
      assert Terminated(init, sep) == "";
    } else {
      TerminatedIsJoinPlusSep(init, sep);
    }
  }

  /** Trimming the trailing separator from the terminated form yields the join. */
  lemma TrimTerminated(parts: seq<string>, sep: string)
    requires |parts| >= 1
    ensures |Terminated(parts, sep)| >= |sep|
    ensures Terminated(parts, sep)[..|Terminated(parts, sep)| - |sep|] == Join(parts, sep)
  {
    TerminatedIsJoinPlusSep(parts, sep);
    var j := Join(parts, sep);
    assert (j + sep)[..|j|] == j;
  }

  /** The terminated form is empty exactly when there are no parts (given a non-empty separator). */
  lemma {:induction false} TerminatedEmpty(parts: seq<string>, sep: string)
    requires |sep| >= 1
    ensures Terminated(parts, sep) == "" <==> |parts| == 0
  {
    if |parts| >= 1 {
      assert |Terminated(parts, sep)| >= |sep|;
    }
  }
}
