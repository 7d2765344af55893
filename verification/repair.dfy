/**
 * Trailing-record repair: after a page is streamed to disk, a final line
 * without its newline (a cut-short stream) is truncated away.
 */
module TrailingRow {

  /** Read size of the backward scan. */
  const BLOCK: nat := 131072

  /** Python's `buffer.rfind(c)`: the index of the last `c`, or -1. */
  function LastIndexOf(s: string, c: char): (r: int)
    ensures -1 <= r < |s|
    ensures r >= 0 ==> s[r] == c
    ensures forall j :: r < j < |s| ==> s[j] != c
    decreases |s|
  {
    if s == [] then -1
    else if s[|s| - 1] == c then |s| - 1
    else LastIndexOf(s[..|s| - 1], c)
  }

  /**
   * The file contents `truncate_trailing_partial_row` leaves: empty or
   * newline-terminated contents stay as they are; otherwise everything after
   * the last newline goes, and with no newline at all nothing is kept.
   * The result is the longest prefix that is empty or ends in a newline.
   */
  function Repair(data: string): (r: string)
    ensures |r| <= |data| && r == data[..|r|]
    ensures r == [] || r[|r| - 1] == '\n'
    ensures forall j :: 0 <= j < |data| && data[j] == '\n' ==> j < |r|
  {
    if |data| == 0 || data[|data| - 1] == '\n' then data
    else
      var k := LastIndexOf(data, '\n');
      if k == -1 then [] else data[..k + 1]
  }

  /** Contents that are empty or already end in a newline are left alone. */
  lemma RepairKeepsTerminated(data: string)
    requires data == [] || data[|data| - 1] == '\n'
    ensures Repair(data) == data
  {
    if data != [] {
      assert |data| - 1 < |Repair(data)|;
    }
  }

  /** Repairing twice is repairing once. */
  lemma RepairIdempotent(data: string)
    ensures Repair(Repair(data)) == Repair(data)
  {
    RepairKeepsTerminated(Repair(data));
  }

  /**
   * The block-wise backward scan of the source: read blocks of `block`
   * bytes from the end, prepend each to a buffer, and search the buffer for
   * its last newline. Returns the length the file is truncated to; for every
   * block size this is the length of `Repair(data)`.
   */
  method TruncateTrailingPartialRow(data: string, block: nat) returns (size: nat)
    requires block > 0
    ensures size <= |data| && data[..size] == Repair(data)
  {
    if |data| == 0 || data[|data| - 1] == '\n' {
      return |data|;
    }
    var pos := |data|;
    var buffer: string := [];
    var lastNl := -1;
    while pos > 0
      invariant 0 <= pos <= |data|
      invariant buffer == data[pos..]
      invariant forall j :: pos <= j < |data| ==> data[j] != '\n'
      invariant lastNl == -1
      decreases pos
    {
      var readPos := if pos - block > 0 then pos - block else 0;
      var chunk := data[readPos..pos];
      buffer := chunk + buffer;
      assert buffer == data[readPos..];
      var idx := LastIndexOf(buffer, '\n');
      if idx != -1 {
        lastNl := readPos + idx;
        assert data[lastNl] == '\n';
        assert forall j :: lastNl < j < |data| ==> data[j] == buffer[j - readPos];
        break;
      }
      pos := readPos;
    }
    if lastNl == -1 {
      return 0;
    }
    size := lastNl + 1;
  }
}
