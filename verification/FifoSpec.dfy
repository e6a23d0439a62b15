/**
 What src/ivyfifo.c promises, on values: the queue of pending bytes, the
 capacity that grows in blocks, and the flag that closes a full queue.
 */
module FifoSpec {
  import opened Sequences

  type Byte = bv8

  const ALLOC_SIZE: nat := 262144
  const MAX_ALLOC_SIZE: nat := 33554432
  const SEND_ERROR: nat := 0xFFFF_FFFF

  /** A queue: its capacity, the position of its first byte in the buffer, its bytes in order, and the flag. */
  datatype Fifo = Fifo(capacity: nat, rptr: nat, contents: seq<Byte>, full: bool)

  ghost predicate Ok(f: Fifo) {
    && 0 < f.capacity <= MAX_ALLOC_SIZE && f.capacity % ALLOC_SIZE == 0
    && f.rptr < f.capacity && |f.contents| < f.capacity
  }

  function Min(a: nat, b: nat): nat {
    if a > b then b else a
  }

  /** Positions at or past the end of the buffer continue at its start. */
  function Wrap(i: nat, n: nat): nat
    requires i < 2 * n
  {
    if i < n then i else i - n
  }

  // ---- write ----

  function Aligned(size: nat): nat {
    (size / ALLOC_SIZE + 1) * ALLOC_SIZE
  }

  function Reallocated(f: Fifo, size: nat): Fifo {
    if Aligned(size) > MAX_ALLOC_SIZE then f.(full := true)
    else if f.capacity < Aligned(size) then Fifo(Aligned(size), 0, f.contents, false)
    else f
  }

  /** The queue once room has been made, or not. */
  function Prepared(f: Fifo, size: nat): Fifo {
    if size + |f.contents| >= f.capacity then Reallocated(f, size + |f.contents|) else f
  }

  function Written(f: Fifo, buf: seq<Byte>): Fifo {
    var g := Prepared(f, |buf|);
    if g.full then g else g.(contents := g.contents + buf)
  }

  /** The exact acceptance rule. */
  ghost predicate Accepts(f: Fifo, buf: seq<Byte>) {
    var total := |f.contents| + |buf|;
    total < MAX_ALLOC_SIZE && (f.full ==> f.capacity <= total)
  }

  lemma AlignedBounds(size: nat)
    ensures size < Aligned(size) <= size + ALLOC_SIZE && Aligned(size) % ALLOC_SIZE == 0
    ensures Aligned(size) <= MAX_ALLOC_SIZE <==> size < MAX_ALLOC_SIZE
  {
  }

  /**
   An accepted write is appended whole, and the buffer grows only when it must, to the next multiple
   of 256 kB beyond the contents; a rejected one changes nothing but closes the queue.
   */
  lemma WriteRule(f: Fifo, buf: seq<Byte>)
    requires Ok(f)
    ensures Accepts(f, buf) <==> |f.contents| + |buf| < 33554432 && (f.full ==> f.capacity <= |f.contents| + |buf|)
    ensures var g, total := Written(f, buf), |f.contents| + |buf|;
      && Ok(g) && g.capacity >= f.capacity
      && (Accepts(f, buf) ==> g.contents == f.contents + buf && !g.full)
      && (Accepts(f, buf) && total >= f.capacity ==> g.rptr == 0 && g.capacity % 262144 == 0 && total < g.capacity <= total + 262144)
      && (Accepts(f, buf) && total < f.capacity ==> g.rptr == f.rptr && g.capacity == f.capacity)
      && (!Accepts(f, buf) ==> g == f.(full := true))
  {
    AlignedBounds(|buf| + |f.contents|);
  }

  lemma RoomMade(f: Fifo, size: nat)
    requires Ok(f)
    ensures var g := Prepared(f, size);
      Ok(g) && g.contents == f.contents && (!g.full ==> |f.contents| + size < g.capacity)
  {
    AlignedBounds(size + |f.contents|);
  }

  // ---- read ----

  function Drained(f: Fifo, m: nat): Fifo
    requires m <= |f.contents| && |f.contents| <= f.capacity && f.rptr < f.capacity
  {
    Fifo(f.capacity, Wrap(f.rptr + m, f.capacity), f.contents[m..], if m > 0 then false else f.full)
  }

  function ReadOut(f: Fifo, n: nat): Fifo
    requires |f.contents| <= f.capacity && f.rptr < f.capacity
  {
    Drained(f, Min(n, |f.contents|))
  }

  lemma DrainedTwice(f: Fifo, m: nat, k: nat)
    requires Ok(f) && m + k <= |f.contents|
    ensures Ok(Drained(f, m)) && Drained(Drained(f, m), k) == Drained(f, m + k)
  {
    assert f.contents[m..][k..] == f.contents[m + k..];
  }

  lemma DrainedNone(f: Fifo)
    requires Ok(f)
    ensures Drained(f, 0) == f
  {
  }

  /**
   doc/NEWS speaks of a queue that is full until it has been drained. A queue that was closed, and
   from which nothing was taken, accepts a write that makes it grow, and is open again.
   */
  lemma ReopensUndrained(buf: seq<Byte>)
    requires |buf| == ALLOC_SIZE
    ensures var f := Fifo(ALLOC_SIZE, 0, [], true);
      Ok(f) && Accepts(f, buf) && Written(f, buf).contents == buf && !Written(f, buf).full
    ensures var f := Written(Fifo(ALLOC_SIZE, 0, [1], false), seq(MAX_ALLOC_SIZE, _ => 0));
      Ok(f) && f.full && Accepts(f, buf) && Written(f, buf).contents == [1] + buf && !Written(f, buf).full
  {
  }

  // ---- send ----

  /** One result of send(): bytes taken, which is never more than offered, or an error. */
  datatype Outcome = Takes(n: nat) | Interrupted | WouldBlock | Fatal

  datatype Flushed = Flushed(fifo: Fifo, sent: seq<Byte>, calls: nat, ret: nat)

  /** The contiguous bytes from the read position on. */
  function Offer(f: Fifo): nat
    requires f.rptr < f.capacity
  {
    Min(f.capacity - f.rptr, |f.contents|)
  }

  /** The send loop against a script of outcomes; past the end of the script the socket blocks. */
  function Flush(f: Fifo, script: seq<Outcome>): (r: Flushed)
    requires |f.contents| <= f.capacity && f.rptr < f.capacity
    ensures r.calls <= |script|
    decreases |script|
  {
    if f.contents == [] || script == [] then Flushed(f, [], 0, |f.contents|)
    else
      match script[0]
      case Interrupted =>
        var r := Flush(f, script[1..]);
        r.(calls := r.calls + 1)
      case WouldBlock => Flushed(f, [], 1, |f.contents|)
      case Fatal => Flushed(f, [], 1, SEND_ERROR)
      case Takes(n) =>
        var m := Min(n, Offer(f));
        if m == 0 then Flushed(f, [], 1, SEND_ERROR)
        else
          var g := Drained(f, m);
          if m < Offer(f) then Flushed(g, f.contents[..m], 1, |g.contents|)
          else
            var r := Flush(g, script[1..]);
            Flushed(r.fifo, f.contents[..m] + r.sent, r.calls + 1, r.ret)
  }

  /** A flush seen from its beginning: what was sent and called before, then the rest. */
  ghost function Resumed(r: Flushed, sent: seq<Byte>, calls: nat): Flushed {
    Flushed(r.fifo, sent + r.sent, calls + r.calls, r.ret)
  }

  /** One round of the send loop. */
  lemma FlushStep(f: Fifo, script: seq<Outcome>, sent: seq<Byte>, calls: nat)
    requires Ok(f) && f.contents != [] && script != []
    ensures var all := Resumed(Flush(f, script), sent, calls);
      match script[0]
      case Interrupted => all == Resumed(Flush(f, script[1..]), sent, calls + 1)
      case WouldBlock => all == Flushed(f, sent, calls + 1, |f.contents|)
      case Fatal => all == Flushed(f, sent, calls + 1, SEND_ERROR)
      case Takes(n) =>
        var m := Min(n, Offer(f));
        var g := Drained(f, m);
        if m == 0 then all == Flushed(f, sent, calls + 1, SEND_ERROR)
        else if m < Offer(f) then all == Flushed(g, sent + f.contents[..m], calls + 1, |g.contents|)
        else all == Resumed(Flush(g, script[1..]), sent + f.contents[..m], calls + 1)
  {
    AppendNil(sent);
    if script[0].Takes? && Min(script[0].n, Offer(f)) > 0 {
      FlushTakes(f, script, sent, calls, Min(script[0].n, Offer(f)));
    }
  }

  lemma FlushTakes(f: Fifo, script: seq<Outcome>, sent: seq<Byte>, calls: nat, m: nat)
    requires Ok(f) && f.contents != [] && script != [] && script[0].Takes? && 0 < m == Min(script[0].n, Offer(f))
    ensures var all, g := Resumed(Flush(f, script), sent, calls), Drained(f, m);
      if m < Offer(f) then all == Flushed(g, sent + f.contents[..m], calls + 1, |g.contents|)
      else all == Resumed(Flush(g, script[1..]), sent + f.contents[..m], calls + 1)
  {
    if m == Offer(f) {
      Regroup(sent, f.contents[..m], Flush(Drained(f, m), script[1..]).sent);
    }
  }

  lemma FlushNothing(f: Fifo, script: seq<Outcome>, sent: seq<Byte>, calls: nat)
    requires Ok(f) && (f.contents == [] || script == [])
    ensures Resumed(Flush(f, script), sent, calls) == Flushed(f, sent, calls, |f.contents|)
  {
    assert sent + [] == sent;
  }

  lemma ResumedStart(r: Flushed)
    ensures Resumed(r, [], 0) == r
  {
    assert [] + r.sent == r.sent;
  }

  /** Whatever send() does: bytes leave in order and none is lost; the result says what is left or that sending failed. */
  lemma {:induction false} FlushConserves(f: Fifo, script: seq<Outcome>)
    requires Ok(f)
    ensures var r := Flush(f, script);
      && Ok(r.fifo) && r.fifo.capacity == f.capacity
      && r.sent + r.fifo.contents == f.contents
      && (r.ret == |r.fifo.contents| < MAX_ALLOC_SIZE || r.ret == SEND_ERROR)
      && r.calls <= |script|
      && (f.contents == [] ==> r.calls == 0)
    decreases |script|
  {
    hide Wrap;
    if f.contents != [] && script != [] {
      if script[0].Interrupted? {
        FlushConserves(f, script[1..]);
      } else if script[0].Takes? {
        var m := Min(script[0].n, Offer(f));
        DrainedTwice(f, m, 0);
        if 0 < m == Offer(f) {
          FlushConserves(Drained(f, m), script[1..]);
          var r := Flush(Drained(f, m), script[1..]);
          Regroup(f.contents[..m], r.sent, r.fifo.contents);
        }
      }
    }
  }

  /** Before every call of send() the queue holds something: what the calls so far took has not emptied it. */
  lemma {:induction false} FlushOffers(f: Fifo, script: seq<Outcome>, k: nat)
    requires Ok(f) && k < Flush(f, script).calls
    ensures var r := Flush(f, script[..k]);
      r.calls == k && Ok(r.fifo) && r.fifo.contents != [] && Offer(r.fifo) > 0
    decreases |script|
  {
    hide Wrap;
    FlushConserves(f, script[..k]);
    if k > 0 {
      assert script[..k][0] == script[0] && script[..k][1..] == script[1..][..k - 1];
      if script[0].Interrupted? {
        FlushOffers(f, script[1..], k - 1);
      } else {
        var g := Drained(f, Offer(f));
        DrainedTwice(f, Offer(f), 0);
        assert script[0].Takes? && Min(script[0].n, Offer(f)) == Offer(f);
        FlushOffers(g, script[1..], k - 1);
      }
    }
  }

  /** The error code appears exactly when the loop met a fatal or an empty send, and never as a count. */
  lemma {:induction false} FlushErrors(f: Fifo, script: seq<Outcome>)
    requires Ok(f)
    ensures var r := Flush(f, script);
      r.ret == 4294967295 <==> r.calls > 0 && r.fifo.contents != [] && (script[r.calls - 1].Fatal? || script[r.calls - 1] == Takes(0))
    decreases |script|
  {
    FlushConserves(f, script);
    if f.contents != [] && script != [] {
      if script[0].Interrupted? {
        FlushConserves(f, script[1..]);
        FlushErrors(f, script[1..]);
      } else if script[0].Takes? {
        var m := Min(script[0].n, Offer(f));
        if 0 < m == Offer(f) {
          DrainedTwice(f, m, 0);
          FlushConserves(Drained(f, m), script[1..]);
          FlushErrors(Drained(f, m), script[1..]);
        }
      }
    }
  }

  /** If every send takes all it is offered, at most two calls empty the queue. */
  lemma FlushEmpties(f: Fifo, script: seq<Outcome>)
    requires Ok(f) && |script| >= 2
    requires forall k :: 0 <= k < |script| ==> script[k].Takes? && script[k].n >= MAX_ALLOC_SIZE
    ensures var r := Flush(f, script);
      && r.fifo.contents == [] && r.sent == f.contents && r.ret == 0
      && r.calls == (if f.contents == [] then 0 else if f.rptr + |f.contents| <= f.capacity then 1 else 2)
  {
    if f.contents != [] {
      var m := Offer(f);
      var g := Drained(f, m);
      DrainedTwice(f, m, 0);
      FlushConserves(f, script);
      assert Flush(f, script).calls == Flush(g, script[1..]).calls + 1;
      if g.contents != [] {
        assert Offer(g) == |g.contents|;
        var h := Drained(g, |g.contents|);
        assert script[1..][0] == script[1] && Min(script[1].n, Offer(g)) == Offer(g);
        assert h.contents == [];
      }
    }
  }

  /** What one call of send() is offered: the bytes up to the end of the contents or of the buffer. */
  ghost predicate Offered(g: Fifo, m: nat) {
    m == |g.contents| <= g.capacity - g.rptr || m == g.capacity - g.rptr <= |g.contents|
  }

  /** What it takes of them. */
  ghost predicate TakenBy(o: Outcome, m: nat, n: nat) {
    if !o.Takes? then n == 0 else n == o.n <= m || n == m <= o.n
  }

  /**
   The k-th call of send(): the bytes it takes leave the front of the queue, and the loop goes on
   exactly if the call was interrupted or took all it was offered.
   */
  lemma {:induction false} FlushCall(f: Fifo, script: seq<Outcome>, k: nat, m: nat, n: nat)
    requires Ok(f) && k < Flush(f, script).calls
    requires Offered(Flush(f, script[..k]).fifo, m) && TakenBy(script[k], m, n)
    ensures var g, h, r := Flush(f, script[..k]).fifo, Flush(f, script[..k + 1]).fifo, Flush(f, script);
      && n <= |g.contents| && h.contents == g.contents[n..]
      && Flush(f, script[..k + 1]).sent == Flush(f, script[..k]).sent + g.contents[..n]
      && (k + 1 < r.calls ==> script[k].Interrupted? || n == m)
      && (k + 1 == r.calls ==> h == r.fifo)
      && (k + 1 == r.calls < |script| && h.contents != [] ==> !script[k].Interrupted? && n < m)
    decreases |script|
  {
    hide Wrap;
    var p, q := script[..k], script[..k + 1];
    assert p == [] <==> k == 0;
    assert q[0] == script[0] && q[1..] == script[1..][..k];
    if k == 0 {
      FirstCall(f, script, m, n);
      FirstCall(f, q, m, n);
    } else {
      assert p[0] == script[0] && p[1..] == script[1..][..k - 1];
      if script[0].Interrupted? {
        FlushCall(f, script[1..], k - 1, m, n);
      } else {
        var t := Offer(f);
        DrainedTwice(f, t, 0);
        assert script[0].Takes? && Min(script[0].n, t) == t > 0;
        FlushCall(Drained(f, t), script[1..], k - 1, m, n);
        var sent := Flush(Drained(f, t), p[1..]).sent;
        Regroup(f.contents[..t], sent, Flush(Drained(f, t), p[1..]).fifo.contents[..n]);
      }
    }
  }

  lemma FirstCall(f: Fifo, script: seq<Outcome>, m: nat, n: nat)
    requires Ok(f) && f.contents != [] && script != [] && Offered(f, m) && TakenBy(script[0], m, n)
    ensures n <= |f.contents| && m == Offer(f) > 0
    ensures !script[0].Interrupted? && n < m ==> (
      && Flush(f, script).calls == 1 && Flush(f, script).fifo == Drained(f, n) && Flush(f, script).sent == f.contents[..n])
    ensures script[0].Interrupted? || n == m ==> (
      && var r := Flush(Drained(f, n), script[1..]);
      && Flush(f, script).calls == 1 + r.calls && Flush(f, script).fifo == r.fifo && Flush(f, script).sent == f.contents[..n] + r.sent)
  {
    DrainedNone(f);
  }

  /** Taking bytes out reopens the queue, and nothing else a send does. */
  lemma {:induction false} FlushFlag(f: Fifo, script: seq<Outcome>)
    requires Ok(f)
    ensures Flush(f, script).fifo.full == (f.full && Flush(f, script).sent == [])
    decreases |script|
  {
    hide Wrap;
    if f.contents != [] && script != [] {
      if script[0].Interrupted? {
        FlushFlag(f, script[1..]);
      } else if script[0].Takes? {
        var m := Min(script[0].n, Offer(f));
        DrainedTwice(f, m, 0);
        if 0 < m == Offer(f) {
          FlushFlag(Drained(f, m), script[1..]);
          assert f.contents[..m] != [];
        }
      }
    }
  }

  // ---- whole histories ----

  datatype Op = Write(buf: seq<Byte>) | Read(n: nat) | SendSocket(script: seq<Outcome>)

  function Step(f: Fifo, op: Op): Fifo
    requires |f.contents| <= f.capacity && f.rptr < f.capacity
  {
    match op
    case Write(buf) => Written(f, buf)
    case Read(n) => ReadOut(f, n)
    case SendSocket(script) => Flush(f, script).fifo
  }

  /** The bytes an operation brings in: all of an accepted write, nothing of a rejected one. */
  ghost function BytesIn(f: Fifo, op: Op): seq<Byte> {
    if op.Write? && Accepts(f, op.buf) then op.buf else []
  }

  /** The bytes an operation hands on to the reader or the socket. */
  ghost function BytesOut(f: Fifo, op: Op): seq<Byte>
    requires |f.contents| <= f.capacity && f.rptr < f.capacity
  {
    match op
    case Write(buf) => []
    case Read(n) => f.contents[..Min(n, |f.contents|)]
    case SendSocket(script) => Flush(f, script).sent
  }

  lemma StepKeeps(f: Fifo, op: Op)
    requires Ok(f)
    ensures Ok(Step(f, op)) && Step(f, op).capacity >= f.capacity
    ensures f.contents + BytesIn(f, op) == BytesOut(f, op) + Step(f, op).contents
  {
    match op
    case Write(buf) =>
      WriteRule(f, buf);
      assert f.contents + [] == [] + f.contents;
    case Read(n) =>
      DrainedTwice(f, Min(n, |f.contents|), 0);
    case SendSocket(script) =>
      FlushConserves(f, script);
  }

  /** A read hands out the whole queue or as much of its front as it asks for, and keeps the rest. */
  lemma ReadRule(f: Fifo, n: nat)
    requires Ok(f)
    ensures BytesOut(f, Read(n)) == if n <= |f.contents| then f.contents[..n] else f.contents
    ensures Step(f, Read(n)).contents == if n <= |f.contents| then f.contents[n..] else []
    ensures Step(f, Read(n)).capacity == f.capacity
  {
  }

  /** The queue is closed after a write exactly if that was rejected; after a read or a flush, if it was and nothing was taken out. */
  lemma FlagRule(f: Fifo, op: Op)
    requires Ok(f)
    ensures Step(f, op).full == if op.Write? then !Accepts(f, op.buf) else f.full && BytesOut(f, op) == []
  {
    match op
    case Write(buf) => WriteRule(f, buf);
    case Read(n) =>
    case SendSocket(script) => FlushFlag(f, script);
  }

  ghost function Run(f: Fifo, ops: seq<Op>): Fifo
    requires Ok(f)
    ensures Ok(Run(f, ops))
    decreases |ops|
  {
    if ops == [] then f else StepKeeps(f, ops[0]); Run(Step(f, ops[0]), ops[1..])
  }

  ghost function TotalIn(f: Fifo, ops: seq<Op>): seq<Byte>
    requires Ok(f)
    decreases |ops|
  {
    if ops == [] then [] else StepKeeps(f, ops[0]); BytesIn(f, ops[0]) + TotalIn(Step(f, ops[0]), ops[1..])
  }

  ghost function TotalOut(f: Fifo, ops: seq<Op>): seq<Byte>
    requires Ok(f)
    decreases |ops|
  {
    if ops == [] then [] else StepKeeps(f, ops[0]); BytesOut(f, ops[0]) + TotalOut(Step(f, ops[0]), ops[1..])
  }

  /** Which of the writes are accepted. */
  ghost function Verdicts(f: Fifo, ops: seq<Op>): seq<bool>
    requires Ok(f)
    decreases |ops|
  {
    if ops == [] then []
    else StepKeeps(f, ops[0]); (if ops[0].Write? then [Accepts(f, ops[0].buf)] else []) + Verdicts(Step(f, ops[0]), ops[1..])
  }

  /**
   Over every history: what was in the queue and what the accepted writes added is what was handed
   on, in that order, followed by what is still in the queue.
   */
  lemma {:induction false} Conservation(f: Fifo, ops: seq<Op>)
    requires Ok(f)
    ensures f.contents + TotalIn(f, ops) == TotalOut(f, ops) + Run(f, ops).contents
    ensures Run(f, ops).capacity >= f.capacity
    decreases |ops|
  {
    if ops != [] {
      var op, g, rest := ops[0], Step(f, ops[0]), ops[1..];
      StepKeeps(f, op);
      Conservation(g, rest);
      Chain(f.contents, BytesIn(f, op), TotalIn(g, rest), BytesOut(f, op), g.contents, TotalOut(g, rest), Run(g, rest).contents);
    }
  }

  lemma Chain(before: seq<Byte>, in1: seq<Byte>, in2: seq<Byte>, out1: seq<Byte>, mid: seq<Byte>, out2: seq<Byte>, after: seq<Byte>)
    requires before + in1 == out1 + mid && mid + in2 == out2 + after
    ensures before + (in1 + in2) == (out1 + out2) + after
  {
    calc {
      before + (in1 + in2);
      (before + in1) + in2;
      (out1 + mid) + in2;
      out1 + (mid + in2);
      out1 + (out2 + after);
      (out1 + out2) + after;
    }
  }
}
