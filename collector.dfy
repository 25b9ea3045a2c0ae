/** The de-jitter collection loop of `main`, as a state machine over values.
    One iteration of `for(;;)` is `Next`; a run of iterations is `Run`. */
module Collector {
  import opened Bits

  /** Length of the batch buffer `bytes`. */
  const BufferSize: int := 1249

  /** What `message_transmit_entropy_data` leaves behind: the descriptor it
      stores in `socket_fd` (it may have reconnected) and its return value. */
  datatype TxReply = TxReply(fd: int, status: int)

  /** One iteration's inputs: the two durations measured on the current device,
      and the transmitter's reply, consulted only if this iteration flushes. */
  datatype Tick = Tick(t1: int, t2: int, reply: TxReply)

  /** A call made to a sink: the file writer, the transmitter (with the
      descriptor it was handed), or `close` after a failed transmission. */
  datatype Event =
    | WroteFile(data: seq<bv8>)
    | Transmitted(data: seq<bv8>, fd: int)
    | Closed(fd: int)

  /** Fixed for the whole loop: the opened device handles (`devhs`, `use_n` of
      them) and whether an output file (`-o`) and a broker host (`-i`) were given. */
  datatype Config = Config(devices: seq<nat>, toFile: bool, toHost: bool)

  /** The loop's variables between two iterations. */
  datatype State = State(buffer: seq<bv8>, byte: bv8, bits: int, index: int, devIndex: int, socketFd: int)

  /** Bounds that hold at the top of every iteration. */
  predicate Valid(c: Config, s: State)
  {
    |c.devices| > 0 && |s.buffer| == BufferSize &&
    0 <= s.bits < 8 && 0 <= s.index < BufferSize && 0 <= s.devIndex < |c.devices|
  }

  /** The variables when the loop is entered: `byte` and `bits` are 0, no
      connection is open, `index` is where the device loop left it, and the
      buffer holds whatever the uninitialised array held (`stale`). */
  function Initial(stale: seq<bv8>, start: int): State
  {
    State(stale, 0, 0, start, 0, -1)
  }

  /** The bit a pair of durations yields: none for a tie, else whether the
      first duration is the longer one. */
  function Outcome(t: Tick): (r: seq<bool>)
    ensures |r| == (if t.t1 == t.t2 then 0 else 1)
    ensures r != [] ==> (r[0] <==> t.t1 > t.t2)
  {
    if t.t1 == t.t2 then [] else [t.t1 > t.t2]
  }

  /** The bits a sequence of iterations yields, in order. */
  function Outcomes(ticks: seq<Tick>): seq<bool>
  {
    if ticks == [] then [] else Outcomes(ticks[..|ticks| - 1]) + Outcome(ticks[|ticks| - 1])
  }

  /** A full buffer is handed to the file sink if configured, then to the
      transmitter if configured; a reply of -1 closes the socket and forgets it,
      so the next batch reconnects. Gives the new `socket_fd` and the sink calls. */
  function Flush(c: Config, buffer: seq<bv8>, fd: int, reply: TxReply): (r: (int, seq<Event>))
    ensures WroteFile(buffer) in r.1 <==> c.toFile
    ensures Transmitted(buffer, fd) in r.1 <==> c.toHost
    ensures Closed(reply.fd) in r.1 <==> c.toHost && reply.status == -1
    ensures forall e :: e in r.1 && !e.Closed? ==> e.data == buffer
    ensures !c.toHost ==> r.0 == fd
    ensures c.toHost && reply.status == -1 ==> r.0 == -1
    ensures c.toHost && reply.status != -1 ==> r.0 == reply.fd
    ensures |r.1| == (if c.toFile then 1 else 0) + (if c.toHost then 1 else 0) +
                     (if c.toHost && reply.status == -1 then 1 else 0)
    ensures c.toFile ==> r.1[0] == WroteFile(buffer)
    ensures c.toHost && reply.status != -1 ==> r.1[|r.1| - 1] == Transmitted(buffer, fd)
    ensures c.toHost && reply.status == -1 ==>
              r.1[|r.1| - 2] == Transmitted(buffer, fd) && r.1[|r.1| - 1] == Closed(reply.fd)
  {
    var written := if c.toFile then [WroteFile(buffer)] else [];
    if !c.toHost then (fd, written)
    else if reply.status == -1 then (-1, written + [Transmitted(buffer, fd), Closed(reply.fd)])
    else (reply.fd, written + [Transmitted(buffer, fd)])
  }

  /** Whether iteration `t` from state `s` fills the last slot of the buffer. */
  predicate Fills(s: State, t: Tick)
  {
    t.t1 != t.t2 && s.bits == 7 && s.index == BufferSize - 1
  }

  /** One iteration of the collection loop. */
  function Next(c: Config, s: State, t: Tick): (r: (State, seq<Event>))
    requires Valid(c, s)
    ensures Valid(c, r.0)
    ensures r.0.devIndex == (s.devIndex + 1) % |c.devices|
    ensures t.t1 == t.t2 ==> r.0 == s.(devIndex := r.0.devIndex) && r.1 == []
    ensures t.t1 != t.t2 ==> r.0.byte == ShiftIn(s.byte, t.t1 > t.t2) && r.0.bits == (s.bits + 1) % 8
    ensures t.t1 != t.t2 && s.bits < 7 ==> r.0.index == s.index && r.0.buffer == s.buffer
    ensures t.t1 != t.t2 && s.bits == 7 ==>
              r.0.buffer == s.buffer[s.index := r.0.byte] && r.0.index == (s.index + 1) % BufferSize
    ensures Fills(s, t) ==> (r.0.socketFd, r.1) == Flush(c, r.0.buffer, s.socketFd, t.reply)
    ensures !Fills(s, t) ==> r.0.socketFd == s.socketFd && r.1 == []
  {
    var d := if s.devIndex + 1 == |c.devices| then 0 else s.devIndex + 1;
    if t.t1 == t.t2 then (s.(devIndex := d), [])
    else
      var b := ShiftIn(s.byte, t.t1 > t.t2);
      if s.bits + 1 < 8 then (s.(byte := b, bits := s.bits + 1, devIndex := d), [])
      else
        var buf := s.buffer[s.index := b];
        if s.index + 1 == BufferSize then
          var (fd, events) := Flush(c, buf, s.socketFd, t.reply);
          (State(buf, b, 0, 0, d, fd), events)
        else
          (State(buf, b, 0, s.index + 1, d, s.socketFd), [])
  }

  /** The state after the iterations `ticks`, and every sink call they made, in order. */
  function Run(c: Config, s: State, ticks: seq<Tick>): (r: (State, seq<Event>))
    requires Valid(c, s)
    ensures Valid(c, r.0)
    decreases |ticks|
  {
    if ticks == [] then (s, [])
    else
      var (s1, e1) := Run(c, s, ticks[..|ticks| - 1]);
      var (s2, e2) := Next(c, s1, ticks[|ticks| - 1]);
      (s2, e1 + e2)
  }

  /** Running one more iteration is one more `Next`. */
  lemma RunSnoc(c: Config, s: State, ticks: seq<Tick>, i: int)
    requires Valid(c, s) && 0 <= i < |ticks|
    ensures var before := Run(c, s, ticks[..i]);
            var step := Next(c, before.0, ticks[i]);
            Run(c, s, ticks[..i + 1]) == (step.0, before.1 + step.1)
  {
    assert ticks[..i + 1][..i] == ticks[..i];
  }

  /** The device polled in each iteration goes round-robin over the opened devices. */
  lemma {:induction false} RunDevIndex(c: Config, s: State, ticks: seq<Tick>)
    requires Valid(c, s)
    ensures Run(c, s, ticks).0.devIndex == (s.devIndex + |ticks|) % |c.devices|
    decreases |ticks|
  {
    if ticks != [] {
      RunDevIndex(c, s, ticks[..|ticks| - 1]);
      ModSucc(s.devIndex + |ticks| - 1, |c.devices|);
    }
  }

  /** The devices `n` iterations poll from `dev_index == d` on. */
  function Schedule(devices: seq<nat>, d: int, n: nat): (r: seq<nat>)
    requires |devices| > 0 && d >= 0
    ensures |r| == n
  {
    seq(n, k requires 0 <= k < n => devices[(d + k) % |devices|])
  }

  lemma ScheduleSnoc(devices: seq<nat>, d: int, n: nat)
    requires |devices| > 0 && d >= 0
    ensures Schedule(devices, d, n + 1) == Schedule(devices, d, n) + [devices[(d + n) % |devices|]]
  {
  }

  lemma ModSucc(x: nat, m: int)
    requires m > 0
    ensures (x % m + 1) % m == (x + 1) % m
  {
    var q, r := x / m, x % m;
    if r + 1 < m {
      ModUnique(x + 1, m, q, r + 1);
      ModUnique(r + 1, m, 0, r + 1);
    } else {
      ModUnique(x + 1, m, q + 1, 0);
      ModUnique(m, m, 1, 0);
    }
  }

  /** Quotient and remainder are the only ones of their kind. */
  lemma ModUnique(x: int, m: int, q: int, r: int)
    requires m > 0 && 0 <= r < m && x == q * m + r
    ensures x % m == r && x / m == q
  {
    var q', r' := x / m, x % m;
    assert (q - q') * m == r' - r;
    if q - q' >= 1 {
      MulAtLeast(q - q', m);
    } else if q' - q >= 1 {
      MulAtLeast(q' - q, m);
    }
  }

  lemma MulAtLeast(k: int, m: int)
    requires k >= 1 && m > 0
    ensures k * m >= m
  {
    assert k * m == (k - 1) * m + m;
  }

  /** Every batch handed to a sink is a whole buffer of 1249 bytes. */
  lemma {:induction false} RunBatchSize(c: Config, s: State, ticks: seq<Tick>)
    requires Valid(c, s)
    ensures forall e :: e in Run(c, s, ticks).1 && !e.Closed? ==> |e.data| == BufferSize
    decreases |ticks|
  {
    if ticks != [] {
      RunBatchSize(c, s, ticks[..|ticks| - 1]);
    }
  }

  // ---------------------------------------------------------------------------
  // What the buffer holds after a run that started on a byte boundary.

  /** Byte `j` of `bytes` went to slot `(i0 + j) % 1249`; the slots of the
      last 1249 bytes still hold them. */
  ghost predicate Placed(i0: int, buffer: seq<bv8>, bytes: seq<bv8>)
  {
    forall j :: 0 <= j < |bytes| && |bytes| - j <= BufferSize ==>
      0 <= (i0 + j) % BufferSize < |buffer| && buffer[(i0 + j) % BufferSize] == bytes[j]
  }

  /** The slots that the first `m` bytes written from slot `i0` on did not
      reach still hold what they held in `stale`. */
  ghost predicate Untouched(i0: int, stale: seq<bv8>, buffer: seq<bv8>, m: int)
  {
    forall p :: 0 <= p < BufferSize && (p - i0 + BufferSize) % BufferSize >= m ==>
      p < |buffer| && p < |stale| && buffer[p] == stale[p]
  }

  /** The relation between a state `s` reached from `s0` and the bits `h`
      collected on the way: the accumulator and the counters agree with `h`,
      byte `j` of `Bytes(h)` went to slot `(i0 + j) % 1249` where `i0` is the
      start index, and the slots not written yet hold what they held in `s0`. */
  ghost predicate Consistent(s0: State, s: State, h: seq<bool>)
  {
    var m := |h| / 8;
    |Bytes(h)| == m &&
    s.bits == |h| % 8 &&
    s.byte == Accumulate(s0.byte, h) &&
    s.index == (s0.index + m) % BufferSize &&
    Placed(s0.index, s.buffer, Bytes(h)) &&
    Untouched(s0.index, s0.buffer, s.buffer, m)
  }

  /** Storing the next byte in the slot after the previous one keeps `Placed`. */
  lemma PlacedStore(i0: int, buffer: seq<bv8>, bytes: seq<bv8>, b: bv8)
    requires 0 <= i0 < BufferSize && |buffer| == BufferSize
    requires Placed(i0, buffer, bytes)
    ensures Placed(i0, buffer[(i0 + |bytes|) % BufferSize := b], bytes + [b])
  {
    var m := |bytes|;
    var buffer' := buffer[(i0 + m) % BufferSize := b];
    forall j | 0 <= j < m + 1 && m + 1 - j <= BufferSize
      ensures buffer'[(i0 + j) % BufferSize] == (bytes + [b])[j]
    {
      if j < m {
        ModDistinct(i0 + j, i0 + m);
      }
    }
  }

  /** Storing the next byte leaves alone every slot the bytes so far, and this
      one, did not reach. */
  lemma UntouchedStore(i0: int, stale: seq<bv8>, buffer: seq<bv8>, m: nat, b: bv8)
    requires 0 <= i0 < BufferSize && |buffer| == BufferSize && |stale| == BufferSize
    requires Untouched(i0, stale, buffer, m)
    ensures Untouched(i0, stale, buffer[(i0 + m) % BufferSize := b], m + 1)
  {
    var buffer' := buffer[(i0 + m) % BufferSize := b];
    forall p | 0 <= p < BufferSize && (p - i0 + BufferSize) % BufferSize >= m + 1
      ensures buffer'[p] == stale[p]
    {
      SlotNotReached(i0, m, p);
      assert buffer[p] == stale[p];
    }
  }

  lemma ModDistinct(a: nat, b: int)
    requires 0 < b - a < BufferSize
    ensures a % BufferSize != b % BufferSize
  {
    var q, r := a / BufferSize, a % BufferSize;
    if r + (b - a) < BufferSize {
      ModUnique(b, BufferSize, q, r + (b - a));
    } else {
      ModUnique(b, BufferSize, q + 1, r + (b - a) - BufferSize);
    }
  }

  /** Writing slot `(i0 + m) % 1249` leaves alone every slot that the first
      m + 1 bytes do not reach. */
  lemma SlotNotReached(i0: int, m: nat, p: int)
    requires 0 <= i0 < BufferSize && 0 <= p < BufferSize
    requires (p - i0 + BufferSize) % BufferSize >= m + 1
    ensures p != (i0 + m) % BufferSize
  {
    if i0 + m < BufferSize {
      assert (i0 + m + BufferSize) % BufferSize == i0 + m;
    } else if i0 + m < 2 * BufferSize {
      assert (i0 + m) % BufferSize == i0 + m - BufferSize;
    }
  }

  /** One iteration keeps `Consistent`, with the iteration's bit (if any) appended. */
  lemma NextConsistent(c: Config, s0: State, s: State, h: seq<bool>, t: Tick)
    requires Valid(c, s0) && s0.bits == 0 && Valid(c, s)
    requires Consistent(s0, s, h)
    ensures Consistent(s0, Next(c, s, t).0, h + Outcome(t))
  {
    var s' := Next(c, s, t).0;
    if t.t1 == t.t2 {
      assert h + Outcome(t) == h;
    } else if s.bits == 7 {
      CompletedByte(s0, s, s', h, t.t1 > t.t2);
    } else {
      PartialByte(s0, s, s', h, t.t1 > t.t2);
    }
  }

  /** A bit that does not complete a byte changes only `byte` and `bits`. */
  lemma PartialByte(s0: State, s: State, s': State, h: seq<bool>, x: bool)
    requires |s0.buffer| == BufferSize && 0 <= s0.index < BufferSize && s0.bits == 0
    requires |s.buffer| == BufferSize && Consistent(s0, s, h) && s.bits < 7
    requires s'.byte == ShiftIn(s.byte, x) && s'.bits == s.bits + 1
    requires s'.buffer == s.buffer && s'.index == s.index
    ensures Consistent(s0, s', h + [x])
  {
    var h' := h + [x];
    BytesSnocPartial(h, x);
    ModUnique(|h'|, 8, |h| / 8, |h| % 8 + 1);
    assert Bytes(h') == Bytes(h);
  }

  /** The eighth bit stores the byte in the slot after the previous one. */
  lemma CompletedByte(s0: State, s: State, s': State, h: seq<bool>, x: bool)
    requires |s0.buffer| == BufferSize && 0 <= s0.index < BufferSize && s0.bits == 0
    requires |s.buffer| == BufferSize && Consistent(s0, s, h) && s.bits == 7
    requires s'.byte == ShiftIn(s.byte, x) && s'.bits == 0
    requires s'.buffer == s.buffer[s.index := s'.byte] && s'.index == (s.index + 1) % BufferSize
    ensures Consistent(s0, s', h + [x])
  {
    var h' := h + [x];
    var i0, m, b := s0.index, |h| / 8, s'.byte;
    CompletedAccumulator(s0.byte, h, x);
    ModSucc(i0 + m, BufferSize);
    assert s'.index == (i0 + (m + 1)) % BufferSize;
    PlacedStore(i0, s.buffer, Bytes(h), b);
    UntouchedStore(i0, s0.buffer, s.buffer, m, b);
  }

  /** The accumulator after the eighth bit of a group is the byte `Bytes` gains. */
  lemma CompletedAccumulator(b0: bv8, h: seq<bool>, x: bool)
    requires |h| % 8 == 7
    ensures |h + [x]| / 8 == |h| / 8 + 1 && |h + [x]| % 8 == 0
    ensures Bytes(h + [x]) == Bytes(h) + [ShiftIn(Accumulate(b0, h), x)]
    ensures Accumulate(b0, h + [x]) == ShiftIn(Accumulate(b0, h), x)
  {
    var h' := h + [x];
    ModUnique(|h'|, 8, |h| / 8 + 1, 0);
    assert h'[..|h'| - 1] == h;
    LastEight(b0, h');
    BytesSnocComplete(h, x);
  }

  /** Starting on a byte boundary, every run keeps `Consistent` with the bits
      its iterations yielded. */
  lemma {:induction false} RunConsistent(c: Config, s0: State, ticks: seq<Tick>)
    requires Valid(c, s0) && s0.bits == 0
    ensures Consistent(s0, Run(c, s0, ticks).0, Outcomes(ticks))
    decreases |ticks|
  {
    if ticks == [] {
      assert (s0.index + 0) % BufferSize == s0.index;
    } else {
      var init := ticks[..|ticks| - 1];
      RunConsistent(c, s0, init);
      NextConsistent(c, s0, Run(c, s0, init).0, Outcomes(init), ticks[|ticks| - 1]);
    }
  }

  /** The buffer expected when a batch is flushed after `|h| / 8` bytes: the
      first batch starts with the `1249 - m` slots the loop never wrote (the
      slots before the start index), later batches hold the last 1249 bytes. */
  function Batch(s0: State, h: seq<bool>): seq<bv8>
    requires |s0.buffer| == BufferSize
  {
    var m := |h| / 8;
    if m < BufferSize then s0.buffer[..BufferSize - m] + Bytes(h)
    else Bytes(h)[m - BufferSize..]
  }

  lemma WrapSlot(i0: int, m: int, p: int)
    requires 0 <= i0 < BufferSize && m >= BufferSize && 0 <= p < BufferSize
    requires (i0 + m) % BufferSize == 0
    ensures (i0 + (m - BufferSize + p)) % BufferSize == p
  {
    var q := (i0 + m) / BufferSize;
    assert i0 + m == q * BufferSize;
    assert i0 + (m - BufferSize + p) == (q - 1) * BufferSize + p;
  }

  /** Every batch handed to a sink, by the iteration that fills the buffer, is
      `Batch`: the first one holds the `i0` stale slots followed by the first
      1249 - i0 collected bytes, each later one the 1249 most recent bytes,
      where byte j packs collected bits 8j .. 8j+7. */
  lemma FlushedBatch(c: Config, s0: State, ticks: seq<Tick>)
    requires Valid(c, s0) && s0.bits == 0 && ticks != []
    ensures var prev := Run(c, s0, ticks[..|ticks| - 1]).0;
            forall e :: e in Next(c, prev, ticks[|ticks| - 1]).1 && !e.Closed? ==>
              e.data == Batch(s0, Outcomes(ticks))
  {
    var prev := Run(c, s0, ticks[..|ticks| - 1]).0;
    var t := ticks[|ticks| - 1];
    if Fills(prev, t) {
      BufferAtFlush(c, s0, ticks);
    }
  }

  /** The buffer right after the iteration that fills it. */
  lemma BufferAtFlush(c: Config, s0: State, ticks: seq<Tick>)
    requires Valid(c, s0) && s0.bits == 0 && ticks != []
    requires Fills(Run(c, s0, ticks[..|ticks| - 1]).0, ticks[|ticks| - 1])
    ensures Run(c, s0, ticks).0.buffer == Batch(s0, Outcomes(ticks))
  {
    var init, t := ticks[..|ticks| - 1], ticks[|ticks| - 1];
    var prev := Run(c, s0, init).0;
    var s := Run(c, s0, ticks).0;
    var h := Outcomes(ticks);
    assert s == Next(c, prev, t).0;
    assert s.index == 0 && s.bits == 0;
    assert h == Outcomes(init) + [t.t1 > t.t2];
    RunConsistent(c, s0, ticks);
    BufferIsBatch(s0, s, h);
  }

  /** A buffer that was just wrapped around holds `Batch`. */
  lemma BufferIsBatch(s0: State, s: State, h: seq<bool>)
    requires |s0.buffer| == BufferSize && 0 <= s0.index < BufferSize && |s.buffer| == BufferSize
    requires Consistent(s0, s, h) && s.index == 0 && s.bits == 0 && |h| > 0
    ensures s.buffer == Batch(s0, h)
  {
    var b := Batch(s0, h);
    assert |h| >= 8;
    forall p | 0 <= p < BufferSize ensures s.buffer[p] == b[p] {
      BatchAt(s0, s, h, p);
    }
  }

  /** Slot `p` of the buffer at the moment it is flushed. */
  lemma BatchAt(s0: State, s: State, h: seq<bool>, p: int)
    requires |s0.buffer| == BufferSize && 0 <= s0.index < BufferSize && |s.buffer| == BufferSize
    requires Consistent(s0, s, h) && |h| >= 8 && (s0.index + |h| / 8) % BufferSize == 0
    requires 0 <= p < BufferSize
    ensures |Batch(s0, h)| == BufferSize && s.buffer[p] == Batch(s0, h)[p]
  {
    var i0, m := s0.index, |h| / 8;
    if m < BufferSize {
      FirstBatchAt(s0, s, h, p);
    } else {
      WrapSlot(i0, m, p);
      assert Batch(s0, h)[p] == Bytes(h)[m - BufferSize + p];
    }
  }

  lemma FirstBatchAt(s0: State, s: State, h: seq<bool>, p: int)
    requires |s0.buffer| == BufferSize && 0 <= s0.index < BufferSize && |s.buffer| == BufferSize
    requires Consistent(s0, s, h) && |h| >= 8 && |h| / 8 < BufferSize
    requires (s0.index + |h| / 8) % BufferSize == 0
    requires 0 <= p < BufferSize
    ensures |Batch(s0, h)| == BufferSize && s.buffer[p] == Batch(s0, h)[p]
  {
    var i0, m := s0.index, |h| / 8;
    var b := Batch(s0, h);
    assert i0 + m == BufferSize;
    assert b == s0.buffer[..i0] + Bytes(h);
    if p < i0 {
      assert (p - i0 + BufferSize) % BufferSize == p + m;
      assert b[p] == s0.buffer[p];
    } else {
      assert (i0 + (p - i0)) % BufferSize == p;
      assert b[p] == Bytes(h)[p - i0];
    }
  }
}
