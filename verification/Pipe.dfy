/** Pipes: a 512-byte ring with free-running 32-bit counters, its sleepers and its two ends.

    Each method is one stretch under the pipe's lock: a write or read runs until it returns or
    goes to sleep, and a woken process comes back with a new call. */
module Pipe {
  import opened Blocks
  import opened Streams

  const PIPESIZE := 512

  class PipeState {
    const data: array<Byte>
    var nread: nat
    var nwrite: nat
    var readopen: bool
    var writeopen: bool
    var readers: set<nat>            // processes asleep on &p->nread
    var writers: set<nat>            // processes asleep on &p->nwrite
    ghost var sent: seq<Byte>        // every byte accepted by pipewrite
    ghost var got: nat               // how many of them piperead has delivered

    /** The ring holds the bytes that were accepted and not yet delivered. */
    ghost predicate Stored()
      reads this, data
    {
      && data.Length == PIPESIZE && got <= |sent| <= got + PIPESIZE
      && nread == got % UINT && nwrite == |sent| % UINT
      && (forall i: nat | got <= i < |sent| :: data[i % PIPESIZE] == sent[i])
    }

    /** Writers sleep only for want of room that may still come. */
    ghost predicate WritersServed()
      reads this
    {
      writers != {} ==> |sent| == got + PIPESIZE && readopen
    }

    /** Besides, readers and writers never sleep at the same time. */
    ghost predicate Valid()
      reads this, data
    {
      Stored() && WritersServed() && (readers == {} || writers == {})
    }

    /** Readers sleep only for want of bytes that may still come. */
    ghost predicate ReadersServed()
      reads this
    {
      readers != {} ==> |sent| == got && writeopen
    }

    /** pipealloc. */
    constructor ()
      ensures Valid() && ReadersServed() && fresh(data) && sent == [] && got == 0 && readopen && writeopen
      ensures readers == {} && writers == {}
    {
      data := new Byte[PIPESIZE];
      nread, nwrite := 0, 0;
      readopen, writeopen := true, true;
      readers, writers := {}, {};
      sent, got := [], 0;
    }

    /** pipewrite, from byte i of addr: the bytes it takes are appended to the stream. It fails
        or sleeps only at a full pipe. Sleeping readers are left unserved exactly when it fails
        after filling the pipe from empty, since that way out wakes nobody. */
    method Write(pid: nat, addr: seq<Byte>, i: nat, killed: bool) returns (n: nat, r: Outcome)
      requires Valid() && i <= |addr|
      modifies this, data
      ensures Valid() && got == old(got) && readopen == old(readopen) && writeopen == old(writeopen)
      ensures i <= n <= |addr| && sent == old(sent) + addr[i..n]
      ensures r == Done <==> n == |addr|
      ensures r != Done ==> |sent| == got + 512
      ensures r == Failed <==> n < |addr| && (!readopen || killed)
      ensures n == if |addr| - i <= 512 - (|old(sent)| - got) then |addr| else i + 512 - (|old(sent)| - got)
      ensures r == Slept ==> pid in writers
      ensures old(ReadersServed()) && writeopen ==>
                (ReadersServed() <==> !(old(readers) != {} && |addr| - i > 512 && (!readopen || killed)))
    {
      n := i;
      ghost var was := sent;
      while n < |addr|
        invariant Stored() && i <= n <= |addr| && sent == was + addr[i..n] && got == old(got)
        invariant readopen == old(readopen) && writeopen == old(writeopen)
        invariant readers == old(readers) && writers == old(writers)
        decreases |addr| - n
      {
        if nwrite == (nread + PIPESIZE) % UINT {
          Distance(got, |sent|, PIPESIZE);
          if !readopen || killed {
            return n, Failed;
          }
          readers := {};
          writers := writers + {pid};
          return n, Slept;
        }
        Distance(got, |sent|, PIPESIZE);
        Put(addr[n]);
        n := n + 1;
      }
      readers := {};
      r := Done;
    }

    /** One byte more, in the slot of the write counter. */
    method Put(b: Byte)
      requires Stored() && |sent| < got + PIPESIZE
      modifies data, this`nwrite, this`sent
      ensures Stored() && sent == old(sent) + [b]
    {
      SlotOf(|sent|, PIPESIZE);
      data[nwrite % PIPESIZE] := b;
      nwrite := (nwrite + 1) % UINT;
      sent := sent + [b];
      forall i: nat | got <= i < |sent| - 1 ensures i % PIPESIZE != (|sent| - 1) % PIPESIZE {
        Apart(i, |sent| - 1, PIPESIZE);
      }
      Succ(|sent| - 1);
    }

    /** The byte in the slot of the read counter. */
    method Get() returns (b: Byte)
      requires Stored() && got < |sent|
      modifies this`nread, this`got
      ensures Stored() && got == old(got) + 1 && b == sent[old(got)]
    {
      SlotOf(got, PIPESIZE);
      Succ(got);
      b := data[nread % PIPESIZE];
      nread := (nread + 1) % UINT;
      got := got + 1;
    }

    /** piperead: what it delivers is the next stretch of the stream. It delivers nothing, though
        asked to, only at the end of a closed and drained pipe. */
    method Read(pid: nat, n: nat, killed: bool) returns (out: seq<Byte>, r: Outcome)
      requires Valid()
      modifies this
      ensures Valid() && sent == old(sent) && readopen == old(readopen) && writeopen == old(writeopen)
      ensures got == old(got) + |out| && out == sent[old(got)..got]
      ensures r != Done <==> |sent| == old(got) && writeopen
      ensures r == Done ==> |out| == if n <= |sent| - old(got) then n else |sent| - old(got)
      ensures r != Done ==> out == [] && (r == Failed <==> killed)
      ensures r == Done && out == [] && n > 0 ==> !writeopen && got == |sent|
      ensures r == Slept ==> pid in readers
      ensures old(ReadersServed()) ==> ReadersServed()
    {
      out := [];
      Distance(got, |sent|, PIPESIZE);
      if nread == nwrite && writeopen {
        if killed {
          return [], Failed;
        }
        readers := readers + {pid};
        return [], Slept;
      }
      ghost var g := got;
      while |out| < n
        invariant Stored() && |out| <= n && got == g + |out| && out == sent[g..got]
        invariant sent == old(sent) && readers == old(readers) && (|out| > 0 ==> |sent| > g)
        modifies this`nread, this`got
        decreases n - |out|
      {
        Distance(got, |sent|, PIPESIZE);
        if nread == nwrite {
          break;
        }
        var b := Get();
        out := out + [b];
      }
      writers := {};
      r := Done;
    }

    /** pipeclose: the other end's sleepers are woken; the last close frees the pipe. */
    method Close(writable: bool) returns (freed: bool)
      requires Valid()
      modifies this
      ensures Valid() && sent == old(sent) && got == old(got) && nread == old(nread) && nwrite == old(nwrite)
      ensures writable ==> !writeopen && readers == {} && readopen == old(readopen) && writers == old(writers)
      ensures !writable ==> !readopen && writers == {} && writeopen == old(writeopen) && readers == old(readers)
      ensures freed <==> !readopen && !writeopen
      ensures old(ReadersServed()) ==> ReadersServed()
    {
      if writable {
        writeopen := false;
        readers := {};
      } else {
        readopen := false;
        writers := {};
      }
      freed := !readopen && !writeopen;
    }

    /** A killed process stops sleeping. */
    method Kill(pid: nat)
      requires Valid()
      modifies this`readers, this`writers
      ensures Valid() && readers == old(readers) - {pid} && writers == old(writers) - {pid}
      ensures old(ReadersServed()) ==> ReadersServed()
    {
      readers, writers := readers - {pid}, writers - {pid};
    }
  }

  /** A reader left asleep in front of a full pipe. */
  method Stranded() returns (p: PipeState)
    ensures fresh(p) && p.Valid() && p.readers != {} && |p.sent| == p.got + PIPESIZE && p.writeopen
  {
    p := new PipeState();
    var out, r := p.Read(1, 1, false);
    var bytes: seq<Byte> := seq(513, _ => 0);
    var n, w := p.Write(2, bytes, 0, true);
  }
}
