/** The two ends of a connection, as the modelled code sees them: a reader that may split
    or merge the bytes in any way before it fails, and a writer that may write short. */
module Streams {
  import opened Bytes

  // How a stream ends: io.EOF, or some other error of the transport.
  datatype IoError = Eof | Failed(code: int)

  /** An io.Reader. `chunks` is what later reads will deliver, one read each, so that the
      list can be any fragmentation of any byte stream, with empty reads allowed. Once they
      are used up every read fails with `final`; `errorWithLast` says whether the error
      already accompanies the last bytes. */
  class Source {
    var chunks: seq<Bytes>
    const final: IoError
    const errorWithLast: bool
    ghost var delivered: nat  // how many bytes have been read
    ghost var reach: nat      // the furthest position that any read has asked for

    constructor (chunks: seq<Bytes>, final: IoError, errorWithLast: bool)
      ensures this.chunks == chunks && this.final == final && this.errorWithLast == errorWithLast
      ensures delivered == reach == 0
    {
      this.chunks, this.final, this.errorWithLast := chunks, final, errorWithLast;
      delivered, reach := 0, 0;
    }

    ghost function Undelivered(): Bytes
      reads this
    {
      Concat(chunks)
    }

    // Decreases with every read that does not fail.
    ghost function Work(): nat
      reads this
    {
      |Undelivered()| + |chunks|
    }

    /** Read into a buffer of `size` bytes. */
    method Read(size: nat) returns (data: Bytes, err: Option<IoError>)
      requires size > 0
      modifies this
      ensures |data| <= size
      ensures old(Undelivered()) == data + Undelivered()
      ensures err.Some? ==> err.value == final && chunks == []
      ensures err.None? ==> Work() < old(Work())
      ensures delivered == old(delivered) + |data|
      ensures reach == Max(old(reach), old(delivered) + size)
    {
      reach := Max(reach, delivered + size);
      if chunks == [] {
        return [], Some(final);
      }
      var next := chunks[0];
      if |next| > size {
        data := next[..size];
        assert next == data + next[size..];
        assert ([next[size..]] + chunks[1..])[1..] == chunks[1..];
        assert Concat(chunks) == data + Concat([next[size..]] + chunks[1..]);
        chunks := [next[size..]] + chunks[1..];
        err := None;
      } else {
        data := next;
        chunks := chunks[1..];
        err := if chunks == [] && errorWithLast then Some(final) else None;
      }
      delivered := delivered + |data|;
    }

    /** io.ReadFull into data[from..]: nothing but the end of the stream leaves a gap, and
        an error that comes with the last byte wanted is dropped. */
    method ReadFull(data: array<byte>, from: nat) returns (err: Option<IoError>, got: nat)
      requires from <= data.Length
      modifies this, data
      ensures data[..from] == old(data[..from])
      ensures got == Min(|old(Undelivered())|, data.Length - from)
      ensures data[from..from + got] == old(Undelivered())[..got]
      ensures Undelivered() == old(Undelivered())[got..]
      ensures err == if got == data.Length - from then None else Some(final)
      ensures err.Some? ==> chunks == []
    {
      got, err := 0, None;
      ghost var all := Undelivered();
      while from + got < data.Length && err.None?
        invariant from + got <= data.Length && got <= |all|
        invariant data[..from] == old(data[..from])
        invariant data[from..from + got] == all[..got]
        invariant Undelivered() == all[got..]
        invariant err.Some? ==> err.value == final && chunks == []
        decreases err.None?, Work()
      {
        var part;
        part, err := Read(data.Length - from - got);
        assert all[got..] == part + Undelivered();
        CopyInto(data, from + got, part);
        assert all[..got + |part|] == all[..got] + part;
        assert data[from..from + got + |part|] == data[from..from + got] + part;
        got := got + |part|;
      }
      if from + got == data.Length {
        err := None;
      }
    }
  }

  /** Go's copy(data[at..], part). */
  method CopyInto(data: array<byte>, at: nat, part: Bytes)
    requires at + |part| <= data.Length
    modifies data
    ensures data[..] == old(data[..at]) + part + old(data[at + |part|..])
    ensures data[..at] == old(data[..at])
    ensures data[at..at + |part|] == part
  {
    forall i | 0 <= i < |part| {
      data[at + i] := part[i];
    }
  }

  // What one Write call does: take at most `room` bytes, and fail or not.
  datatype WriteStep = WriteStep(room: nat, fails: bool)

  datatype WriteError = WriteFailed | ShortWrite

  /** An io.Writer. `script` lists the next calls; afterwards it takes everything. */
  class Sink {
    var script: seq<WriteStep>
    var written: Bytes

    constructor (script: seq<WriteStep>)
      ensures this.script == script && written == []
    {
      this.script, written := script, [];
    }

    // The writer may write short but makes progress and does not fail.
    ghost predicate Willing()
      reads this
    {
      forall step <- script :: step.room > 0 && !step.fails
    }

    method Write(data: Bytes) returns (n: nat, failed: bool)
      modifies this
      ensures n <= |data|
      ensures written == old(written) + data[..n]
      ensures n < |data| || failed ==> old(script) != []
      ensures old(script) != [] ==> script == old(script)[1..]
      ensures old(script) == [] ==> script == []
      ensures old(Willing()) ==> Willing() && !failed && (n > 0 || data == [])
    {
      if script == [] {
        n, failed := |data|, false;
        assert data[..n] == data;
      } else {
        n, failed := Min(script[0].room, |data|), script[0].fails;
        assert script[0] in script;
        script := script[1..];
      }
      written := written + data[..n];
    }

    /** Write everything, however short the single writes are (internal/rawhttp/response.go,
        protocol/protocol.go and internal/dns/tcp.go each have this loop). */
    method WriteAll(data: Bytes) returns (err: Option<WriteError>)
      modifies this
      ensures err.None? ==> written == old(written) + data
      ensures err.Some? ==> old(written) <= written <= old(written) + data
      ensures old(Willing()) ==> Willing() && err.None?
    {
      var left := data;
      while left != []
        invariant |left| <= |data| && left == data[|data| - |left|..]
        invariant written == old(written) + data[..|data| - |left|]
        invariant old(Willing()) ==> Willing()
        decreases |left|
      {
        var n, failed := Write(left);
        assert data[..|data| - |left|] + left[..n] == data[..|data| - |left| + n];
        if failed {
          return Some(WriteFailed);
        }
        if n == 0 {
          return Some(ShortWrite);
        }
        left := left[n..];
      }
      assert data[..|data|] == data;
      return None;
    }
  }
}
