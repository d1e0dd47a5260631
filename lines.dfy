/**
  Line-oriented reading of the configuration: the C string tests the parsers
  use (strncmp against a literal, strstr) and the input stream that getline
  and fgets advance, as a sequence of lines with a read position. Each line
  keeps its trailing newline, as getline and fgets deliver it.
 */
module Lines {
  import opened Options

  /** `strncmp(s, prefix, strlen(prefix)) == 0`. */
  predicate StartsWith(s: string, prefix: string) {
    |prefix| <= |s| && s[..|prefix|] == prefix
  }

  /** `pat` occurs in `s` at index `k`. */
  predicate OccursAt(s: string, pat: string, k: nat) {
    k + |pat| <= |s| && s[k..k + |pat|] == pat
  }

  /** `strstr`: the index of the first occurrence of `pat` in `s` at or after `from`. */
  function IndexOf(s: string, pat: string, from: nat): (r: Option<nat>)
    requires from <= |s|
    ensures r.Some? ==> from <= r.value && OccursAt(s, pat, r.value)
    ensures r.Some? ==> forall j :: from <= j < r.value ==> !OccursAt(s, pat, j)
    ensures r.None? ==> forall j :: from <= j <= |s| ==> !OccursAt(s, pat, j)
    decreases |s| - from
  {
    if OccursAt(s, pat, from) then Some(from)
    else if from == |s| then None
    else IndexOf(s, pat, from + 1)
  }

  /** A configuration stream: the lines it holds and how many have been read. */
  class Stream {
    const lines: seq<string>
    var pos: nat

    predicate Valid()
      reads this
    {
      pos <= |lines|
    }

    constructor (lines: seq<string>)
      ensures this.lines == lines && pos == 0 && Valid()
    {
      this.lines := lines;
      pos := 0;
    }

    /** Reads the next line; `None` at end of stream (getline returning -1, fgets returning NULL). */
    method ReadLine() returns (line: Option<string>)
      requires Valid()
      modifies this
      ensures Valid()
      ensures old(pos) < |lines| ==> line == Some(lines[old(pos)]) && pos == old(pos) + 1
      ensures old(pos) == |lines| ==> line == None && pos == old(pos)
    {
      if pos == |lines| {
        return None;
      }
      line := Some(lines[pos]);
      pos := pos + 1;
    }
  }
}
