/** src/record/dbio.rs: positional reads that may come back short. */
module Dbio {
  import opened Outcomes
  import opened Checksum
  import opened Sequences

  /**
   * The operating system's positional read into `buf[from..]`: any non-empty prefix of what is asked for and
   * available, and nothing only at the end of the file or of the buffer.
   */
  method ReadAt(file: Bytes, buf: array<byte>, from: nat, offset: nat) returns (n: nat)
    requires from <= buf.Length
    modifies buf
    ensures n == 0 <==> from == buf.Length || offset >= |file|
    ensures n > 0 ==> from + n <= buf.Length && offset + n <= |file| && buf[from..from + n] == file[offset..offset + n]
    ensures buf[..from] == old(buf[..from])
  {
    if from == buf.Length || offset >= |file| {
      return 0;
    }
    n :| 1 <= n <= buf.Length - from && offset + n <= |file|;
    forall i | 0 <= i < n {
      buf[from + i] := file[offset + i];
    }
  }

  /**
   * `read_at_exact`: whatever lengths the short reads come back with, the buffer ends up holding the requested
   * range, or the range reaches past the end of the file and the read reports it.
   */
  method ReadAtExact(file: Bytes, buf: array<byte>, offset: nat) returns (r: Result<()>)
    modifies buf
    ensures r == if buf.Length == 0 || offset + buf.Length <= |file| then Ok(()) else Err(UnexpectedEof)
    ensures r.Ok? && buf.Length > 0 ==> buf[..] == file[offset..offset + buf.Length]
  {
    var done := 0;
    while done < buf.Length
      invariant done <= buf.Length
      invariant done > 0 ==> offset + done <= |file| && buf[..done] == file[offset..offset + done]
    {
      var n := ReadAt(file, buf, done, offset + done);
      if n == 0 {
        return Err(UnexpectedEof);
      }
      assert buf[..done + n] == buf[..done] + buf[done..done + n];
      SliceSplit(file, offset, offset + done, offset + done + n);
      done := done + n;
    }
    assert buf[..] == buf[..done];
    return Ok(());
  }
}
