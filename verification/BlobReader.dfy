/** internal/archive/read.go: one object read out of the response pipe of a long-running `git cat-file`. The response
    frames each object as a header line, the body and an LF; a reader leases the pipe until it is closed. */
module BlobReader {
  import opened Prelude

  datatype PipeError = Closed | EndOfBlob | UnexpectedEOF | BadTerminator | PipeEnded

  /** The process: what its pipe still holds, and whether it was given up. */
  class Process {
    var output: Bytes
    var aborted: bool
    var leases: int // readers that hold the pipe

    constructor (output: Bytes)
      ensures this.output == output && !aborted && leases == 0
    {
      this.output, aborted, leases := output, false, 0;
    }
  }

  class Reader {
    const process: Process
    var remaining: nat
    var closed: bool
    var closeError: Option<PipeError>

    /** readObject, after the header line: the lease is taken. */
    constructor (process: Process, size: nat)
      requires process.leases == 0
      modifies process
      ensures this.process == process && remaining == size && !closed && closeError == None
      ensures process.leases == 1 && process.output == old(process.output) && process.aborted == old(process.aborted)
    {
      this.process, remaining, closed, closeError := process, size, false, None;
      new;
      process.leases := process.leases + 1;
    }

    /** Read into `size` octets, of which the pipe delivers at most `ready` at once. */
    method Read(size: nat, ready: nat) returns (chunk: Bytes, error: Option<PipeError>)
      requires ready > 0
      modifies this, process
      ensures closed == old(closed) && closeError == old(closeError)
      ensures process.leases == old(process.leases) && process.aborted == old(process.aborted)
      ensures old(process.output) == chunk + process.output && old(remaining) == |chunk| + remaining && |chunk| <= size
      ensures error == if closed then Some(Closed)
                       else if size == 0 then None
                       else if old(remaining) == 0 then Some(EndOfBlob)
                       else if old(process.output) == [] then Some(UnexpectedEOF)
                       else None
      ensures error.Some? ==> chunk == []
      ensures error.None? && size > 0 ==>
        0 < |chunk| == Min(Min(size, old(remaining)), Min(ready, |old(process.output)|))
    {
      if closed { return [], Some(Closed); }
      if size == 0 { return [], None; }
      if remaining == 0 { return [], Some(EndOfBlob); }
      var n := Min(Min(size, remaining), Min(ready, |process.output|));
      if n == 0 { return [], Some(UnexpectedEOF); }
      chunk := process.output[..n];
      process.output := process.output[n..];
      remaining := remaining - n;
      error := None;
    }

    /** Close discards what was not read and the LF after it. It succeeds exactly when the pipe holds the rest of a
        framed object, and then leaves the pipe at the next header; otherwise the process is given up. Only the first
        close returns the lease; closing again changes nothing. */
    method Close() returns (error: Option<PipeError>)
      modifies this, process
      ensures closed && error == closeError
      ensures old(closed) ==> closeError == old(closeError) && remaining == old(remaining) && unchanged(process)
      ensures !old(closed) ==>
        && process.leases == old(process.leases) - 1
        && (error.None? <==> old(remaining < |process.output| && process.output[remaining] == LF))
        && (error.None? ==> process.output == old(process.output[remaining + 1..])
                            && process.aborted == old(process.aborted))
        && (error.Some? ==> process.aborted)
    {
      if closed { return closeError; }
      closed := true;
      if |process.output| < remaining {
        closeError := Some(PipeEnded);
      } else {
        process.output := process.output[remaining..];
        if process.output == [] {
          closeError := Some(PipeEnded);
        } else {
          var end := process.output[0];
          process.output := process.output[1..];
          closeError := if end != LF then Some(BadTerminator) else None;
        }
      }
      if closeError.Some? { process.aborted := true; }
      process.leases := process.leases - 1;
      return closeError;
    }
  }

  /** Whatever sizes a caller reads in and however much the pipe delivers at each read, the octets it gets are a prefix
      of the object, and closing succeeds and leaves the pipe exactly at what follows the object, whatever octets the
      body holds. Enough reads get all of it. A second close is harmless. */
  method ReadAndClose(process: Process, body: Bytes, after: Bytes, sizes: seq<nat>, ready: nat -> nat)
    returns (got: Bytes)
    requires process.output == body + [LF] + after && process.leases == 0 && !process.aborted
    requires forall i :: ready(i) > 0
    modifies process
    ensures (forall i :: 0 <= i < |sizes| ==> sizes[i] > 0) && |sizes| >= |body| ==> got == body
    ensures got <= body && process.output == after && process.leases == 0 && !process.aborted
  {
    var reader := new Reader(process, |body|);
    got := [];
    var i := 0;
    while i < |sizes|
      invariant fresh(reader) && reader.process == process
      invariant !reader.closed && reader.closeError == None && process.leases == 1 && !process.aborted
      invariant got + process.output == body + [LF] + after && reader.remaining == |body| - |got|
      invariant i <= |sizes| && ((forall k :: 0 <= k < |sizes| ==> sizes[k] > 0) ==> |got| >= Min(i, |body|))
    {
      var chunk, error := reader.Read(sizes[i], ready(i));
      ghost var before := got;
      got := got + chunk;
      assert before + (chunk + process.output) == got + process.output;
      i := i + 1;
    }
    Split(got, process.output, body, after);
    var closeError := reader.Close();
    closeError := reader.Close();
  }

  lemma {:induction false} Split(got: Bytes, output: Bytes, body: Bytes, after: Bytes)
    requires got + output == body + [LF] + after && |got| <= |body|
    ensures got <= body
    ensures |body| - |got| < |output| && output[|body| - |got|] == LF && output[|body| - |got| + 1..] == after
  {
    var whole := got + output;
    var n := |body| - |got|;
    assert got == whole[..|got|] == body[..|got|];
    assert output[n] == whole[|body|] == LF;
    assert output[n + 1..] == whole[|body| + 1..] == after;
  }
}
