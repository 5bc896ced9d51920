/**
pipe.c.  A method is one stretch of code that runs with the pipe's lock held: from acquire, or from a
wakeup, to the next sleep or return.  `written` and `delivered` are all bytes ever stored and read;
`sleepR` and `sleepW` are the processes asleep on &nread and &nwrite.
*/
module Pipe {
  import opened Blocks

  const PIPESIZE: nat := 512
  const WRAP: nat := 0x1_0000_0000

  datatype Outcome = Done(n: nat) | Error | Asleep

  /** The place of the k-th byte in the buffer. */
  function Slot(k: nat): (i: nat)
    ensures i < PIPESIZE
  {
    k % PIPESIZE
  }

  /** A 32-bit counter after n increments. */
  function Count(n: nat): (c: nat) { n % WRAP }

  /** n bytes of the circular buffer, from position `first` on. */
  function Window(d: seq<Byte>, first: nat, n: nat): (b: seq<Byte>)
    requires |d| == PIPESIZE
    ensures |b| == n && forall k: nat | k < n :: b[k] == d[Slot(first + k)]
  {
    seq(n, k requires 0 <= k < n => d[Slot(first + k)])
  }

  /** The 32-bit counters tell how many bytes are buffered. */
  lemma {:induction false} Counters(r: nat, w: nat)
    requires r <= w <= r + PIPESIZE
    ensures Count(w) == (Count(r) + PIPESIZE) % WRAP <==> w == r + PIPESIZE
    ensures Count(w) == Count(r) <==> w == r
  {
    var q := r / WRAP;
    assert r == q * WRAP + r % WRAP;
  }

  /** The wrapping counter counts on, and names the same slot as the full count. */
  lemma {:induction false} CounterStep(r: nat)
    ensures (Count(r) + 1) % WRAP == Count(r + 1) && Slot(Count(r)) == Slot(r)
  {
    var shift, a, b := r / WRAP * 8388608, r / PIPESIZE, r % PIPESIZE;
    assert r % WRAP == r - PIPESIZE * shift;
    assert r % WRAP == PIPESIZE * (a - shift) + b;
  }

  /** Positions less than a buffer apart have different slots. */
  lemma {:induction false} Apart(a: nat, b: nat)
    requires a < b < a + PIPESIZE
    ensures Slot(a) != Slot(b)
  {
  }

  class PipeBuffer {
    var data: array<Byte>
    var nread: nat
    var nwrite: nat
    var readopen: bool
    var writeopen: bool
    ghost var written: seq<Byte>
    ghost var delivered: seq<Byte>
    ghost var sleepR: set<nat>
    ghost var sleepW: set<nat>

    /** The bytes stored and not yet read. */
    ghost function Buffered(): (b: seq<Byte>)
      requires data.Length == PIPESIZE && |delivered| <= |written|
      reads this, data
    {
      Window(data[..], |delivered|, |written| - |delivered|)
    }

    ghost predicate Valid()
      reads this, data
    {
      && data.Length == PIPESIZE && |delivered| <= |written| <= |delivered| + PIPESIZE
      && nread == Count(|delivered|) && nwrite == Count(|written|)
      && written == delivered + Buffered()
      && (sleepR != {} ==> readopen) && (sleepW != {} ==> writeopen)
    }

    /**
    No wakeup was lost: readers sleep only on an empty pipe that is open for writing, writers only
    on a full one open for reading.
    */
    ghost predicate SleepOk()
      reads this
    {
      && (sleepR != {} ==> |written| == |delivered| && writeopen)
      && (sleepW != {} ==> |written| == |delivered| + PIPESIZE && readopen)
    }

    /** pipealloc's settings. */
    constructor ()
      ensures Valid() && SleepOk() && fresh(data) && readopen && writeopen && written == delivered == []
              && sleepR == sleepW == {}
    {
      data := new Byte[PIPESIZE](_ => 0);
      nread, nwrite, readopen, writeopen := 0, 0, true, true;
      written, delivered, sleepR, sleepW := [], [], {}, {};
    }

    /** pipeclose; the last user of that end is done with it, so nobody sleeps in it. */
    method Close(writable: bool) returns (freed: bool)
      requires Valid() && (if writable then writeopen && sleepW == {} else readopen && sleepR == {})
      modifies this`readopen, this`writeopen, this`sleepR, this`sleepW
      ensures Valid() && (old(SleepOk()) ==> SleepOk())
      ensures readopen == (old(readopen) && writable) && writeopen == (old(writeopen) && !writable)
      ensures freed <==> !readopen && !writeopen
      ensures freed ==> sleepR == {} && sleepW == {}
    {
      if writable {
        writeopen := false;
        sleepR := {};
      } else {
        readopen := false;
        sleepW := {};
      }
      freed := !readopen && !writeopen;
    }

    /** A process is killed in its sleep. */
    ghost method Kill(pid: nat)
      requires Valid()
      modifies this`sleepR, this`sleepW
      ensures Valid() && (old(SleepOk()) ==> SleepOk())
      ensures sleepR == old(sleepR) - {pid} && sleepW == old(sleepW) - {pid}
    {
      sleepR, sleepW := sleepR - {pid}, sleepW - {pid};
    }

    /** One byte into the buffer. */
    method Store(x: Byte)
      requires Valid() && |written| < |delivered| + PIPESIZE
      modifies this`nwrite, this`written, data
      ensures Valid() && written == old(written) + [x]
    {
      hide Slot, Count;
      ghost var buf := Buffered();
      CounterStep(|written|);
      data[Slot(nwrite)] := x;
      nwrite := (nwrite + 1) % WRAP;
      written := written + [x];
      forall k: nat | k < |buf| ensures data[Slot(|delivered| + k)] == buf[k] {
        Apart(|delivered| + k, |written| - 1);
      }
      assert Buffered() == buf + [x];
    }

    /** One byte out of the buffer. */
    method Fetch() returns (x: Byte)
      requires Valid() && |delivered| < |written|
      modifies this`nread, this`delivered
      ensures Valid() && |delivered| == |old(delivered)| + 1 && delivered == old(delivered) + [x]
    {
      hide Slot, Count;
      ghost var buf := Buffered();
      CounterStep(|delivered|);
      x := data[Slot(nread)];
      assert x == buf[0];
      nread := (nread + 1) % WRAP;
      delivered := delivered + [x];
      assert buf == [x] + buf[1..];
      assert Buffered() == buf[1..];
    }

    /**
    pipewrite of src by process pid, from position i on.  The wakeup discipline survives exactly unless
    the writer is killed, gives up on a full pipe, and had filled it while readers slept.
    */
    method Write(pid: nat, src: seq<Byte>, i: nat, killed: bool) returns (r: Outcome, i': nat)
      requires Valid() && writeopen && i <= |src|
      modifies this`nwrite, this`written, this`sleepR, this`sleepW, data
      ensures Valid() && i <= i' <= |src| && written == old(written) + src[i..i'] && (r.Done? ==> r.n == i' == |src|)
      ensures r.Error? ==> (killed || !readopen) && |written| == |delivered| + PIPESIZE && i' < |src|
      ensures r.Error? ==> sleepR == old(sleepR)
      ensures r.Asleep? ==> !killed && readopen && i' < |src| && sleepR == {} && sleepW == old(sleepW) + {pid}
      ensures r.Asleep? ==> |written| == |delivered| + PIPESIZE
      ensures r.Done? ==> sleepR == {}
      ensures !r.Asleep? ==> sleepW == old(sleepW)
      ensures old(SleepOk()) ==> (SleepOk() <==> !(killed && old(sleepR) != {} && |src| - i > PIPESIZE))
    {
      hide Count;
      i' := i;
      assert src[i..i] == [];
      while i' < |src|
        invariant i <= i' <= |src| && Valid() && written == old(written) + src[i..i']
        invariant sleepR == old(sleepR) && sleepW == old(sleepW)
      {
        Counters(|delivered|, |written|);
        if nwrite == (nread + PIPESIZE) % WRAP {
          if !readopen || killed {
            return Error, i';
          }
          sleepR := {};
          sleepW := sleepW + {pid};
          return Asleep, i';
        }
        Store(src[i']);
        assert src[i..i' + 1] == src[i..i'] + [src[i']];
        i' := i' + 1;
      }
      sleepR := {};
      return Done(|src|), i';
    }

    /** piperead of up to n bytes by process pid. */
    method Read(pid: nat, n: nat, killed: bool) returns (r: Outcome, dst: seq<Byte>)
      requires Valid() && readopen
      modifies this`nread, this`delivered, this`sleepR, this`sleepW
      ensures Valid() && (old(SleepOk()) ==> SleepOk()) && delivered == old(delivered) + dst
      ensures r.Asleep? <==> |old(written)| == |old(delivered)| && writeopen && !killed
      ensures r.Error? <==> |old(written)| == |old(delivered)| && writeopen && killed
      ensures r.Asleep? ==> sleepR == old(sleepR) + {pid} && sleepW == old(sleepW)
      ensures !r.Done? ==> dst == []
      ensures r.Done? ==>
                && r.n == |dst| && sleepW == {} && sleepR == old(sleepR)
                && |dst| == (if n < |old(written)| - |old(delivered)| then n else |old(written)| - |old(delivered)|)
    {
      hide Count;
      dst := [];
      Counters(|delivered|, |written|);
      if nread == nwrite && writeopen {
        if killed {
          return Error, dst;
        }
        sleepR := sleepR + {pid};
        return Asleep, dst;
      }
      while |dst| < n
        invariant |dst| <= n && Valid() && delivered == old(delivered) + dst && |delivered| <= |written|
                  && sleepR == old(sleepR)
      {
        Counters(|delivered|, |written|);
        if nread == nwrite {
          break;
        }
        var x := Fetch();
        dst := dst + [x];
      }
      sleepW := {};
      return Done(|dst|), dst;
    }
  }

  /**
  A lost wakeup: a reader goes to sleep, then a killed writer fills the pipe with 512 of its 513
  bytes and leaves.
  */
  method LostWakeup() returns (p: PipeBuffer, bytes: seq<Byte>)
    ensures fresh(p) && p.Valid() && p.sleepR == {1} && |p.Buffered()| == PIPESIZE && !p.SleepOk()
  {
    p := new PipeBuffer();
    var r, dst := p.Read(1, 1, false);
    bytes := seq(PIPESIZE + 1, _ => 0);
    var w, i := p.Write(2, bytes, 0, true);
  }
}
