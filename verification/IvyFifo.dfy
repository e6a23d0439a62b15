/** The growing ring buffer of src/ivyfifo.c, proved against FifoSpec. */
module IvyFifo {
  import opened Sequences
  import opened FifoSpec

  // ---- the bytes of a ring ----

  function RingLength(r: nat, w: nat, n: nat): nat
    requires r < n && w < n
  {
    if w >= r then w - r else w - r + n
  }

  /** The bytes from r up to w, continuing at the start of the buffer when its end is reached. */
  function Ring(b: seq<Byte>, r: nat, w: nat): (s: seq<Byte>)
    requires r < |b| && w < |b|
    ensures |s| == RingLength(r, w, |b|)
  {
    seq(RingLength(r, w, |b|), k requires 0 <= k < RingLength(r, w, |b|) => b[Wrap(r + k, |b|)])
  }

  /** Bytes copied to the write position, short of the end of the buffer and of the read position, are appended. */
  lemma RingAppend(b: seq<Byte>, b': seq<Byte>, r: nat, w: nat, chunk: seq<Byte>)
    requires r < |b| == |b'| && w < |b|
    requires w + |chunk| <= |b| && RingLength(r, w, |b|) + |chunk| < |b|
    requires forall i :: 0 <= i < |b| ==> b'[i] == if w <= i < w + |chunk| then chunk[i - w] else b[i]
    ensures Ring(b', r, Wrap(w + |chunk|, |b|)) == Ring(b, r, w) + chunk
  {
    var n := |b|;
    var w' := Wrap(w + |chunk|, n);
    var len := RingLength(r, w, n);
    assert RingLength(r, w', n) == len + |chunk|;
    forall k | 0 <= k < len + |chunk|
      ensures b'[Wrap(r + k, n)] == (Ring(b, r, w) + chunk)[k]
    {
    }
  }

  /** Moving the read position on drops bytes from the front. */
  lemma RingDrain(b: seq<Byte>, r: nat, w: nat, m: nat)
    requires r < |b| && w < |b| && m <= RingLength(r, w, |b|)
    ensures Ring(b, Wrap(r + m, |b|), w) == Ring(b, r, w)[m..]
  {
    var n, r' := |b|, Wrap(r + m, |b|);
    assert RingLength(r', w, n) == RingLength(r, w, n) - m;
    forall k | 0 <= k < RingLength(r', w, n)
      ensures Ring(b, r', w)[k] == Ring(b, r, w)[m..][k]
    {
      assert Wrap(r' + k, n) == Wrap(r + (m + k), n);
    }
  }

  /** A stretch that does not reach past the end of the buffer is a slice of it. */
  lemma RingSlice(b: seq<Byte>, r: nat, w: nat, m: nat)
    requires r < |b| && w < |b| && m <= RingLength(r, w, |b|) && r + m <= |b|
    ensures Ring(b, r, w)[..m] == b[r..r + m]
  {
    forall k | 0 <= k < m
      ensures Ring(b, r, w)[..m][k] == b[r..r + m][k]
    {
      assert Ring(b, r, w)[k] == b[Wrap(r + k, |b|)];
    }
  }

  /** One memcpy out of the ring: the destination now starts with `done + len` bytes of the queue. */
  lemma CopyStep(before: seq<Byte>, after: seq<Byte>, done: nat, chunk: seq<Byte>, contents: seq<Byte>, n: nat)
    requires |before| == |after| && done + |chunk| <= n <= |before| && n <= |contents|
    requires before[..done] == contents[..done] && chunk == contents[done..][..|chunk|]
    requires forall i :: 0 <= i < |after| ==> after[i] == if done <= i < done + |chunk| then chunk[i - done] else before[i]
    ensures after[..done + |chunk|] == contents[..done + |chunk|] && after[n..] == before[n..]
  {
    forall i | 0 <= i < done + |chunk|
      ensures after[i] == contents[i]
    {
      if i < done {
        assert before[..done][i] == contents[..done][i];
      } else {
        assert chunk[i - done] == contents[done..][..|chunk|][i - done];
      }
    }
  }

  class IvyFifoBuffer {
    var buffer: array<Byte>
    var rptr: nat
    var wptr: nat
    var full: bool

    ghost predicate Valid()
      reads this, buffer
    {
      && 0 < buffer.Length <= MAX_ALLOC_SIZE && buffer.Length % ALLOC_SIZE == 0
      && rptr < buffer.Length && wptr < buffer.Length
    }

    /** The queue that the buffer represents. */
    ghost function Queue(): (f: Fifo)
      requires Valid()
      reads this, buffer
      ensures Ok(f)
    {
      Fifo(buffer.Length, rptr, Ring(buffer[..], rptr, wptr), full)
    }

    /** IvyFifoInit */
    constructor ()
      ensures Valid() && fresh(buffer)
      ensures Queue() == Fifo(262144, 0, [], false)
    {
      buffer := new Byte[ALLOC_SIZE];
      rptr, wptr := 0, 0;
      full := false;
    }

    /** IvyFifoSize */
    method Size() returns (n: nat)
      ensures n == buffer.Length
    {
      n := buffer.Length;
    }

    /** IvyFifoLength */
    method Length() returns (n: nat)
      requires Valid()
      ensures n == |Queue().contents| < buffer.Length
    {
      var size: int := wptr - rptr;
      if size < 0 {
        size := size + buffer.Length;
      }
      n := size;
    }

    /** IvyFifoAvail: never 0, so that equal pointers always mean an empty queue */
    method Avail() returns (n: nat)
      requires Valid()
      ensures n == buffer.Length - |Queue().contents| > 0
    {
      var length := Length();
      n := buffer.Length - length;
    }

    /** IvyFifoIsFull */
    method IsFull() returns (b: bool)
      requires Valid()
      ensures b == Queue().full
    {
      b := full;
    }

    /** IvyFifoDrain */
    method Drain(size: nat)
      requires Valid() && size <= |Queue().contents|
      modifies `rptr, `full
      ensures Valid() && Queue() == Drained(old(Queue()), size)
    {
      RingDrain(buffer[..], rptr, wptr, size);
      rptr := rptr + size;
      if rptr >= buffer.Length {
        rptr := rptr - buffer.Length;
      }
      if size > 0 {
        full := false;
      }
    }

    /** The memcpy of IvyFifoGenericRead. */
    method CopyOut(dest: array<Byte>, done: nat, len: nat, ghost f: Fifo, ghost n: nat)
      requires Valid() && dest != buffer && done + len <= n <= dest.Length && n <= |f.contents|
      requires Ok(f) && Queue() == Drained(f, done) && rptr + len <= buffer.Length
      requires dest[..done] == f.contents[..done]
      modifies dest
      ensures dest[..done + len] == f.contents[..done + len] && dest[n..] == old(dest[n..])
    {
      RingSlice(buffer[..], rptr, wptr, len);
      ghost var before, chunk := dest[..], buffer[..][rptr..rptr + len];
      assert chunk == Queue().contents[..len] == f.contents[done..][..len];
      forall i | 0 <= i < len {
        dest[done + i] := buffer[rptr + i];
      }
      assert before[..done] == f.contents[..done];
      CopyStep(before, dest[..], done, chunk, f.contents, n);
      assert dest[..][..done + len] == dest[..done + len] && dest[..][n..] == dest[n..];
    }

    /** IvyFifoRead, that is IvyFifoGenericRead with no callback */
    method Read(dest: array<Byte>, bufSize: nat) returns (n: nat)
      requires Valid() && dest != buffer && Min(bufSize, |Queue().contents|) <= dest.Length
      modifies `rptr, `full, dest
      ensures Valid() && Queue() == ReadOut(old(Queue()), bufSize)
      ensures n == Min(bufSize, |old(Queue()).contents|)
      ensures dest[..n] == old(Queue()).contents[..n]
      ensures dest[n..] == old(dest[n..])
    {
      hide Ring, RingLength, Wrap;
      ghost var f := Queue();
      DrainedNone(f);
      var length := Length();
      n := Min(bufSize, length);
      var done: nat, bytesToRead: nat, again := 0, n, true;
      while again
        invariant Valid() && 0 <= bytesToRead && 0 <= done && done + bytesToRead == n <= |f.contents|
        invariant Queue() == Drained(f, done)
        invariant dest[..done] == f.contents[..done] && dest[n..] == old(dest[n..])
        invariant !again ==> bytesToRead == 0
        decreases bytesToRead, again
      {
        var len := Min(buffer.Length - rptr, bytesToRead);
        ghost var q := Queue();
        CopyOut(dest, done, len, f, n);
        assert Queue() == q;
        Drain(len);
        DrainedTwice(f, done, len);
        done := done + len;
        bytesToRead := bytesToRead - len;
        again := bytesToRead > 0;
      }
    }

    /** IvyFifoRealloc */
    method Realloc(newSize: nat)
      requires Valid() && newSize + ALLOC_SIZE < 0x1_0000_0000
      modifies this
      ensures Valid() && Queue() == Reallocated(old(Queue()), newSize)
      ensures buffer == old(buffer) || fresh(buffer)
    {
      var oldSize := Size();
      var alignedNewSize := (newSize / ALLOC_SIZE + 1) * ALLOC_SIZE;
      AlignedBounds(newSize);
      if alignedNewSize > MAX_ALLOC_SIZE {
        full := true;
      } else if oldSize < alignedNewSize {
        ghost var contents := Queue().contents;
        var len := Length();
        var newBuffer := new Byte[alignedNewSize];
        var n := Read(newBuffer, len);
        assert newBuffer[..len] == contents;
        buffer := newBuffer;
        rptr, wptr := 0, len;
        full := false;
        RingSlice(buffer[..], 0, len, len);
        assert Ring(buffer[..], 0, len)[..len] == Ring(buffer[..], 0, len) && buffer[..][0..len] == buffer[..len];
      }
    }

    /** The memcpy of IvyFifoWrite and the step of the write pointer. */
    method CopyIn(buf: seq<Byte>)
      requires Valid() && wptr + |buf| <= buffer.Length && |Queue().contents| + |buf| < buffer.Length
      modifies `wptr, buffer
      ensures Valid() && Queue() == old(Queue()).(contents := old(Queue()).contents + buf)
    {
      ghost var before, w := buffer[..], wptr;
      forall i | 0 <= i < |buf| {
        buffer[wptr + i] := buf[i];
      }
      wptr := wptr + |buf|;
      if wptr >= buffer.Length {
        wptr := 0;
      }
      RingAppend(before, buffer[..], rptr, w, buf);
    }

    /** IvyFifoWrite; sizes are assumed not to wrap around as 32-bit numbers */
    method Write(buf: seq<Byte>)
      requires Valid() && |buf| + |Queue().contents| + ALLOC_SIZE < 0x1_0000_0000
      modifies this, buffer
      ensures Valid() && Queue() == Written(old(Queue()), buf)
      ensures buffer == old(buffer) || fresh(buffer)
    {
      hide Ring, Wrap, Reallocated;
      ghost var f := Queue();
      RoomMade(f, |buf|);
      var avail := Avail();
      if |buf| >= avail {
        var length := Length();
        Realloc(|buf| + length);
      }
      if full {
        return;
      }
      ghost var g := Queue();
      var done: nat, size: nat, again := 0, |buf|, true;
      AppendedNone(g);
      while again
        invariant Valid() && done + size == |buf| && |g.contents| + |buf| < buffer.Length
        invariant Queue() == Appended(g, buf, done)
        invariant !again ==> size == 0
        invariant buffer == old(buffer) || fresh(buffer)
        decreases size, again
      {
        var len := Min(buffer.Length - wptr, size);
        AppendedMore(g, buf, done, len);
        CopyIn(buf[done..done + len]);
        done := done + len;
        size := size - len;
        again := size > 0;
      }
      assert buf[..done] == buf;
    }

    /** IvyFifoSendSocket against a script of send() results; past its end the socket blocks. */
    method SendSocket(script: seq<Outcome>) returns (ret: nat, sent: seq<Byte>, calls: nat)
      requires Valid()
      modifies `rptr, `full
      ensures Valid() && Flushed(Queue(), sent, calls, ret) == Flush(old(Queue()), script)
    {
      hide Ring, RingLength, Wrap, Flush, Resumed, Drained;
      ghost var f := Queue();
      sent, calls := [], 0;
      var length := Length();
      ghost var all := Flush(f, script);
      ResumedStart(all);
      assert script[0..] == script;
      while length > 0 && calls < |script|
        invariant Valid() && length == |Queue().contents| && calls <= |script|
        invariant Resumed(Flush(Queue(), script[calls..]), sent, calls) == all
        decreases |script| - calls
      {
        ghost var q := Queue();
        var maxLen := Min(buffer.Length - rptr, length);
        var outcome := script[calls];
        FlushStep(q, script[calls..], sent, calls);
        assert script[calls..][1..] == script[calls + 1..];
        calls := calls + 1;
        match outcome {
          case Interrupted => continue;
          case WouldBlock => return length, sent, calls;
          case Fatal => return SEND_ERROR, sent, calls;
          case Takes(n) =>
            var realLen := Min(n, maxLen);
            if realLen == 0 {
              return SEND_ERROR, sent, calls;
            }
            assert realLen == Min(n, Offer(q));
            RingSlice(buffer[..], rptr, wptr, realLen);
            assert buffer[..][rptr..rptr + realLen] == buffer[rptr..rptr + realLen];
            sent := sent + buffer[rptr..rptr + realLen];
            Drain(realLen);
            assert Queue() == Drained(q, realLen);
            length := Length();
            if realLen < maxLen {
              return length, sent, calls;
            }
        }
      }
      FlushNothing(Queue(), script[calls..], sent, calls);
      ret := Length();
    }

    /** One operation; what a write reports is the state of the flag after it, as the sockets of Ivy use it. */
    method Perform(op: Op) returns (bytes: seq<Byte>, verdict: seq<bool>)
      requires Valid() && (op.Write? ==> |op.buf| + MAX_ALLOC_SIZE + ALLOC_SIZE <= 0x1_0000_0000)
      modifies this, buffer
      ensures Valid() && (buffer == old(buffer) || fresh(buffer))
      ensures Queue() == Step(old(Queue()), op) && bytes == BytesOut(old(Queue()), op)
      ensures verdict == if op.Write? then [Accepts(old(Queue()), op.buf)] else []
    {
      hide Written, ReadOut, Flush, Accepts, Ring;
      ghost var f := Queue();
      bytes, verdict := [], [];
      match op
      case Write(buf) =>
        WriteRule(f, buf);
        Write(buf);
        var closed := IsFull();
        verdict := [!closed];
      case Read(n) =>
        var length := Length();
        var dest := new Byte[Min(n, length)];
        var got := Read(dest, n);
        bytes := dest[..got];
      case SendSocket(script) =>
        var ret, sent, calls := SendSocket(script);
        bytes := sent;
    }

    /** Any run of operations on the ring buffer does what it does on the queue, and conserves the bytes. */
    method Replay(ops: seq<Op>) returns (out: seq<Byte>, verdicts: seq<bool>)
      requires Valid()
      requires forall i :: 0 <= i < |ops| && ops[i].Write? ==> |ops[i].buf| + MAX_ALLOC_SIZE + ALLOC_SIZE <= 0x1_0000_0000
      modifies this, buffer
      ensures Valid() && Queue() == Run(old(Queue()), ops)
      ensures out == TotalOut(old(Queue()), ops) && verdicts == Verdicts(old(Queue()), ops)
      ensures old(Queue()).contents + TotalIn(old(Queue()), ops) == out + Queue().contents
    {
      hide Step, BytesOut, Ring;
      ghost var f0 := Queue();
      Conservation(f0, ops);
      out, verdicts := [], [];
      for i := 0 to |ops|
        invariant Valid() && (buffer == old(buffer) || fresh(buffer))
        invariant Run(Queue(), ops[i..]) == Run(f0, ops)
        invariant out + TotalOut(Queue(), ops[i..]) == TotalOut(f0, ops)
        invariant verdicts + Verdicts(Queue(), ops[i..]) == Verdicts(f0, ops)
      {
        ghost var f := Queue();
        assert ops[i..][0] == ops[i] && ops[i..][1..] == ops[i + 1..];
        var bytes, verdict := Perform(ops[i]);
        Regroup(out, bytes, TotalOut(Queue(), ops[i + 1..]));
        Regroup(verdicts, verdict, Verdicts(Queue(), ops[i + 1..]));
        out, verdicts := out + bytes, verdicts + verdict;
      }
    }
  }

  /** The queue g with the first k bytes of buf appended. */
  ghost function Appended(g: Fifo, buf: seq<Byte>, k: nat): Fifo
    requires k <= |buf|
  {
    g.(contents := g.contents + buf[..k])
  }

  lemma AppendedNone(g: Fifo)
    ensures forall buf: seq<Byte> :: Appended(g, buf, 0) == g
  {
  }

  lemma AppendedMore(g: Fifo, buf: seq<Byte>, k: nat, len: nat)
    requires k + len <= |buf|
    ensures var h := Appended(g, buf, k); h.(contents := h.contents + buf[k..k + len]) == Appended(g, buf, k + len)
  {
    assert (g.contents + buf[..k]) + buf[k..k + len] == g.contents + buf[..k + len];
  }
}
