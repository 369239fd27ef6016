/** pipe.c.  Each method is what one process does from taking the pipe's lock (or being woken inside
    sleep) until it releases the lock or sleeps again, so any interleaving of readers and writers is a
    sequence of method calls.  `sent` and `got` are all bytes ever stored and ever returned. */
module Pipe {

  const PIPESIZE: int := 512
  const UINT: int := 0x1_0000_0000

  type Pid = nat

  datatype Outcome = Done | Slept | Failed

  lemma Quotient(x: int, k: int, r: int)
    requires x == k * UINT + r && 0 <= r < UINT
    ensures x % UINT == r && x / UINT == k
  {
  }

  /** A counter d steps on. */
  lemma AddMod(a: nat, d: nat)
    requires d < UINT
    ensures (a + d) % UINT == if a % UINT + d < UINT then a % UINT + d else a % UINT + d - UINT
  {
    var k, r := a / UINT, a % UINT;
    if r + d < UINT {
      Quotient(a + d, k, r + d);
    } else {
      Quotient(a + d, k + 1, r + d - UINT);
    }
  }

  lemma SlotOf(a: nat)
    ensures a % UINT % PIPESIZE == a % PIPESIZE
  {
    var k, r := a / UINT, a % UINT;
    assert a == PIPESIZE * (8388608 * k + r / PIPESIZE) + r % PIPESIZE;
  }

  /** Counting modulo 2^32 does not confuse numbers that are at most PIPESIZE apart, and because
      PIPESIZE divides 2^32 the slot of a wrapped counter is the slot of the true count. */
  lemma Wrapped(a: nat, b: nat)
    requires a <= b <= a + PIPESIZE
    ensures a % UINT == b % UINT <==> a == b
    ensures b % UINT == (a % UINT + PIPESIZE) % UINT <==> b == a + PIPESIZE
    ensures a % UINT % PIPESIZE == a % PIPESIZE
    ensures (a % UINT + 1) % UINT == (a + 1) % UINT
  {
    AddMod(a, b - a);
    AddMod(a, 1);
    AddMod(a % UINT, PIPESIZE);
    AddMod(a % UINT, 1);
    SlotOf(a);
  }

  class Pipe {
    const data: array<int>
    var nread: int
    var nwrite: int
    var readopen: bool
    var writeopen: bool
    var readers: set<Pid>       // asleep on &nread
    var writers: set<Pid>       // asleep on &nwrite
    ghost var sent: seq<int>
    ghost var got: seq<int>

    /** First in, first out: what was returned is what was stored, in order, and the rest, at most
        PIPESIZE bytes, is in the ring, wherever the 32-bit counters are. */
    ghost predicate Valid()
      reads this, data
    {
      && data.Length == PIPESIZE
      && got <= sent && |sent| <= |got| + PIPESIZE
      && nread == |got| % UINT && nwrite == |sent| % UINT
      && forall k | |got| <= k < |sent| :: data[k % PIPESIZE] == sent[k]
    }

    ghost predicate ReadersAwake()
      reads this
    {
      readers != {} ==> sent == got && writeopen && readopen
    }

    ghost predicate WritersAwake()
      reads this
    {
      writers != {} ==> |sent| == |got| + PIPESIZE && readopen && writeopen
    }

    /** No one sleeps who could go on.  (A sleeper holds its own end of the pipe open.) */
    ghost predicate Awake()
      reads this
    {
      ReadersAwake() && WritersAwake()
    }

    ghost function Room(): int
      reads this
    {
      PIPESIZE - (|sent| - |got|)
    }

    constructor ()
      ensures Valid() && Awake() && sent == [] && readopen && writeopen && readers == writers == {}
      ensures fresh(data)
    {
      data := new int[PIPESIZE];
      nread, nwrite, readopen, writeopen, readers, writers := 0, 0, true, true, {}, {};
      sent, got := [], [];
    }

    /** pipewrite from byte i of addr on.  It stores as many bytes as there is room for, in order, and
        sleeps only on a full pipe.  Unless it fails it leaves no reader asleep, also not one that an
        earlier call left; a call that fails on readers asleep leaves them so on a full pipe.  From a
        pipe on which no one sleeps in vain that is: the writer was killed, readers were asleep, and it
        had more to write than the pipe holds. */
    method Write(pid: Pid, addr: seq<int>, i: nat, killed: bool) returns (i': nat, o: Outcome)
      requires Valid() && i <= |addr| && writeopen
      modifies this`nwrite, this`readers, this`writers, this`sent, data
      ensures Valid() && i <= i' <= |addr| && sent == old(sent) + addr[i..i']
      ensures i' - i == if |addr| - i <= old(Room()) then |addr| - i else old(Room())
      ensures o == Done <==> i' == |addr|
      ensures o != Done ==> |sent| == |got| + PIPESIZE
      ensures o == Failed <==> o != Done && (!readopen || killed)
      ensures o == Done || o == Slept ==> readers == {}
      ensures o == Failed ==> readers == old(readers)
      ensures writers == old(writers) + if o == Slept then {pid} else {}
      ensures ReadersAwake() <==> o != Failed || readers == {}
      ensures old(WritersAwake()) || o == Slept ==> WritersAwake()
      ensures old(Awake()) ==> (Awake() <==> !(killed && old(readers) != {} && |addr| - i > PIPESIZE))
    {
      i' := i;
      while i' < |addr|
        invariant i <= i' <= |addr| && Valid() && sent == old(sent) + addr[i..i']
        invariant readers == old(readers) && writers == old(writers)
      {
        Wrapped(|got|, |sent|);
        if nwrite == (nread + PIPESIZE) % UINT {
          if !readopen || killed {
            return i', Failed;
          }
          readers := {};
          writers := writers + {pid};
          return i', Slept;
        }
        Wrapped(|sent|, |sent|);
        Slots(|got|, |sent|);
        data[nwrite % PIPESIZE] := addr[i'];
        nwrite := (nwrite + 1) % UINT;
        sent := sent + [addr[i']];
        i' := i' + 1;
      }
      readers := {};
      return i', Done;
    }

    /** piperead.  It returns the oldest unread bytes, at most n and at least one unless n is 0 or the
        write end is closed; it sleeps only on an empty pipe that can still be written.  No writer sleeps
        after it has returned bytes, and a pipe it leaves empty has no reader asleep in vain. */
    method Read(pid: Pid, n: nat, killed: bool) returns (bytes: seq<int>, o: Outcome)
      requires Valid() && readopen
      modifies this`nread, this`readers, this`writers, this`got
      ensures Valid() && got == old(got) + bytes
      ensures o == Done ==> |bytes| == if n < |sent| - |old(got)| then n else |sent| - |old(got)|
      ensures o != Done ==> bytes == [] && sent == got && writeopen && (o == Failed <==> killed)
      ensures o == Done <==> old(sent != got || !writeopen)
      ensures readers == old(readers) + if o == Slept then {pid} else {}
      ensures writers == if o == Done then {} else old(writers)
      ensures old(ReadersAwake()) || (sent == got && writeopen) ==> ReadersAwake()
      ensures old(WritersAwake()) || o == Done ==> WritersAwake()
    {
      bytes := [];
      Wrapped(|got|, |sent|);
      if nread == nwrite && writeopen {
        if killed {
          return [], Failed;
        }
        readers := readers + {pid};
        return [], Slept;
      }
      var i := 0;
      while i < n
        invariant 0 <= i <= n && |bytes| == i && Valid() && got == old(got) + bytes
        invariant readers == old(readers)
      {
        Wrapped(|got|, |sent|);
        if nread == nwrite {
          break;
        }
        assert sent[..|got| + 1] == sent[..|got|] + [sent[|got|]];
        bytes := bytes + [data[nread % PIPESIZE]];
        nread := (nread + 1) % UINT;
        got := got + [sent[|got|]];
        i := i + 1;
      }
      writers := {};
      return bytes, Done;
    }

    /** kill makes a sleeper runnable whatever it waits for. */
    method Rouse(pid: Pid)
      requires Valid()
      modifies this`readers, this`writers
      ensures Valid() && readers == old(readers) - {pid} && writers == old(writers) - {pid}
      ensures ReadersAwake() <==> old(ReadersAwake()) || readers == {}
      ensures WritersAwake() <==> old(WritersAwake()) || writers == {}
    {
      readers, writers := readers - {pid}, writers - {pid};
    }

    /** pipeclose, by the last holder of that end; `gone` when the pipe's page is freed.  It wakes whoever
        an earlier call left asleep. */
    method Close(writable: bool) returns (gone: bool)
      requires Valid()
      requires if writable then writers == {} else readers == {}
      modifies this`readopen, this`writeopen, this`readers, this`writers
      ensures Valid() && Awake()
      ensures writeopen == (old(writeopen) && !writable) && readopen == (old(readopen) && writable)
      ensures gone <==> !readopen && !writeopen
      ensures gone ==> readers == {} && writers == {}
    {
      if writable {
        writeopen := false;
        readers := {};
      } else {
        readopen := false;
        writers := {};
      }
      gone := !readopen && !writeopen;
    }
  }

  lemma Slots(a: nat, b: nat)
    requires a <= b < a + PIPESIZE
    ensures forall k | a <= k < b :: k % PIPESIZE != b % PIPESIZE
  {
  }

  /** A killed writer can leave a reader asleep on a full pipe. */
  method LostWakeup() returns (p: Pipe)
    ensures fresh(p) && p.readers == {1} && |p.sent| == PIPESIZE && p.got == [] && p.writeopen
  {
    p := new Pipe();
    var bytes, o := p.Read(1, 1, false);
    var i, w := p.Write(2, seq(PIPESIZE + 1, k => 0), 0, true);
  }
}
