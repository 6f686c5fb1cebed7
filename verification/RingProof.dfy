/** What every step of the ring buffer keeps, and what that says about whole runs. */
module RingProof {
  import opened Options
  import opened Words
  import opened RingLayout
  import opened RingModel

  // ---- the invariant ----

  ghost predicate LengthsFit(log: seq<Rec>) {
    forall i :: 0 <= i < |log| ==> |log[i].payload| <= MAX_RECORD
  }

  /** Positions are record boundaries, and at least one byte of the ring stays free. */
  ghost predicate Shape(cfg: Config, s: Sys) {
    && cfg.Valid()
    && |s.ring| == cfg.Size()
    && s.taken <= |s.log|
    && LengthsFit(s.log)
    && s.prodWord == cfg.KernelWord(Start(s.log, |s.log|))
    && s.consWord == U64(Start(s.log, s.taken))
    && Start(s.log, |s.log|) < Start(s.log, s.taken) + cfg.Size()
  }

  ghost predicate RecAt(ring: seq<byte>, pos: nat, r: Rec)
    requires |ring| > 0
  {
    && |r.payload| <= MAX_RECORD
    && Holds(ring, pos, Bytes4(Header(|r.payload|, r.phase)))
    && Holds(ring, pos + HDR_SZ, r.payload)
  }

  /** Every record not yet passed lies intact in the ring. */
  ghost predicate Stored(s: Sys)
    requires |s.ring| > 0
  {
    forall i :: s.taken <= i < |s.log| ==> RecAt(s.ring, Start(s.log, i), s.log[i])
  }

  /** The first n records are settled. */
  ghost predicate Settled(log: seq<Rec>, n: nat)
    requires n <= |log|
  {
    forall i :: 0 <= i < n ==> !log[i].phase.Busy?
  }

  /** While a call runs, its snapshot is the boundary before record `goal`. */
  ghost predicate CallOk(s: Sys, snap: nat, count: nat) {
    && s.taken <= s.goal <= |s.log|
    && snap == U32(Start(s.log, s.goal))
    && s.base + count == |s.delivered|
  }

  ghost predicate ConsumerOk(cfg: Config, s: Sys) {
    match s.pc
    case Idle => true
    case Top(snap, cons, count) => CallOk(s, snap, count) && cons == s.consWord
    case Copy(snap, cons, next, count, got) =>
      && CallOk(s, snap, count) && s.taken < s.goal && cons == s.consWord
      && IsGood(s.log[s.taken], cfg.valueSize)
      && next == U64(Start(s.log, s.taken + 1))
      && |got| <= cfg.valueSize && got == s.log[s.taken].payload[..|got|]
    case Store(snap, next, count, failed) =>
      && CallOk(s, snap, count) && s.taken < s.goal
      && !s.log[s.taken].phase.Busy?
      && next == U64(Start(s.log, s.taken + 1))
      && (failed <==> IsBad(s.log[s.taken], cfg.valueSize))
  }

  ghost predicate HistoryOk(cfg: Config, s: Sys) {
    && Decided(s) <= |s.log|
    && s.taken <= |s.log|
    && s.delivered == Payloads(s.log[..Decided(s)], cfg.valueSize)
    && FailedCalls(s.outcomes) == BadCount(s.log[..s.taken], cfg.valueSize)
  }

  ghost predicate Inv(cfg: Config, s: Sys) {
    && Shape(cfg, s)
    && Stored(s)
    && Settled(s.log, s.taken)
    && ConsumerOk(cfg, s)
    && HistoryOk(cfg, s)
  }

  // ---- record boundaries ----

  lemma {:induction false} StartSame(log: seq<Rec>, log': seq<Rec>, i: nat)
    requires i <= |log| && i <= |log'|
    requires forall k :: 0 <= k < i ==> |log[k].payload| == |log'[k].payload|
    ensures Start(log, i) == Start(log', i)
  {
    if i > 0 {
      StartSame(log, log', i - 1);
    }
  }

  /** Records follow one another without overlap. */
  lemma {:induction false} StartOrder(log: seq<Rec>, i: nat, j: nat)
    requires i < j <= |log|
    ensures Start(log, i) + Stride(|log[i].payload|) <= Start(log, j)
  {
    if i + 1 < j {
      StartOrder(log, i, j - 1);
    }
  }

  lemma StartMonotone(log: seq<Rec>, i: nat, j: nat)
    requires i <= j <= |log|
    ensures Start(log, i) <= Start(log, j)
  {
    if i < j {
      StartOrder(log, i, j);
    }
  }

  lemma {:induction false} StartAligned(log: seq<Rec>, i: nat)
    requires i <= |log|
    ensures Start(log, i) % 8 == 0
  {
    if i > 0 {
      StartAligned(log, i - 1);
    }
  }

  // ---- arithmetic of positions ----

  lemma SizeBounds(cfg: Config)
    requires cfg.Valid()
    ensures 4096 <= cfg.Size() <= 0x1000_0000
  {
    Pow2Values();
    Pow2Monotone(12, cfg.bits);
    Pow2Monotone(cfg.bits, 28);
  }

  /** The ring size divides 2^32 and 2^64, so truncated positions mask like unbounded ones. */
  lemma TruncatedMod(cfg: Config, x: nat)
    requires cfg.Valid()
    ensures U32(x) % cfg.Size() == x % cfg.Size()
    ensures U64(x) % cfg.Size() == x % cfg.Size()
    ensures cfg.KernelWord(x) % cfg.Size() == x % cfg.Size()
  {
    Pow2Values();
    Pow2Add(32 - cfg.bits, cfg.bits);
    Pow2Add(64 - cfg.bits, cfg.bits);
    ModOfMultiple(x, cfg.Size(), Pow2(32 - cfg.bits));
    ModOfMultiple(x, cfg.Size(), Pow2(64 - cfg.bits));
  }

  /** `cons_pos & mPosMask` is the offset in the ring of the position the consumer has reached. */
  lemma MaskedOffset(cfg: Config, pos: nat)
    requires cfg.Valid()
    ensures BitAnd(U64(pos), cfg.PosMask()) == pos % cfg.Size()
  {
    BitAndLowMask(U64(pos), cfg.bits);
    TruncatedMod(cfg, pos);
  }

  /** Positions less than 2^32 apart are equal exactly when their low 32 bits are. */
  lemma LowBitsDecide(p: nat, c: nat)
    requires c <= p < c + 0x1_0000_0000
    ensures BitAnd(U64(c), 0xFFFF_FFFF) == U32(c)
    ensures U32(c) == U32(p) <==> c == p
  {
    BitAndLow32(U64(c));
    U32OfU64(c);
    U32Sub(p, c);
  }

  lemma KernelWordAdd(cfg: Config, p: nat, d: nat)
    ensures cfg.KernelWord(cfg.KernelWord(p) + d) == cfg.KernelWord(p + d)
  {
    U32Add(p, d);
    U64Add(p, d);
  }

  lemma WordDifference(cfg: Config, p: nat, c: nat, stride: nat)
    requires c <= p && p + stride < c + 0x1_0000_0000
    ensures cfg.KernelWord(cfg.KernelWord(cfg.KernelWord(p) + stride) - cfg.KernelWord(U64(c)))
         == p + stride - c
  {
    KernelWordAdd(cfg, p, stride);
    match cfg.width
    case W32 =>
      U32OfU64(c);
      U32Sub(p + stride, c);
    case W64 =>
      assert U64(U64(c)) == U64(c);
      U64Sub(p + stride, c);
  }

  /** The kernel's test in wrapped words is the test on unbounded positions: after the
      reservation at most size - 1 bytes are outstanding. */
  lemma FitsExactly(cfg: Config, s: Sys, n: nat)
    requires Shape(cfg, s)
    ensures Fits(cfg, s.prodWord, s.consWord, n) <==>
      n <= MAX_RECORD && Start(s.log, |s.log|) + Stride(n) < Start(s.log, s.taken) + cfg.Size()
  {
    SizeBounds(cfg);
    StartMonotone(s.log, s.taken, |s.log|);
    if n <= MAX_RECORD && Stride(n) <= cfg.Size() {
      WordDifference(cfg, Start(s.log, |s.log|), Start(s.log, s.taken), Stride(n));
    }
  }

  // ---- history ----

  lemma PrefixStep(log: seq<Rec>, n: nat, valueSize: nat)
    requires n < |log|
    ensures Payloads(log[..n + 1], valueSize)
         == Payloads(log[..n], valueSize) + (if IsGood(log[n], valueSize) then [log[n].payload] else [])
    ensures BadCount(log[..n + 1], valueSize)
         == BadCount(log[..n], valueSize) + (if IsBad(log[n], valueSize) then 1 else 0)
  {
    assert log[..n + 1][..n] == log[..n];
  }

  lemma FailedCallsStep(outcomes: seq<Outcome>, o: Outcome)
    ensures FailedCalls(outcomes + [o]) == FailedCalls(outcomes) + (if o.WrongSize? then 1 else 0)
  {
    assert (outcomes + [o])[..|outcomes|] == outcomes;
  }

  // ---- producer steps ----

  lemma PutKeepsRec(ring: seq<byte>, pos: nat, bytes: seq<byte>, at: nat, r: Rec)
    requires |ring| > 0
    requires RecAt(ring, at, r)
    requires at + HDR_SZ + |r.payload| <= pos || pos + |bytes| <= at
    requires pos + |bytes| <= at + |ring| && at + HDR_SZ + |r.payload| <= pos + |ring|
    ensures RecAt(Put(ring, pos, bytes), at, r)
  {
    PutKeepsInterval(ring, pos, bytes, at, Bytes4(Header(|r.payload|, r.phase)));
    PutKeepsInterval(ring, pos, bytes, at + HDR_SZ, r.payload);
  }

  lemma HoldsShifted(ring: seq<byte>, p: nat, q: nat, bytes: seq<byte>)
    requires |ring| > 0 && p % |ring| == q % |ring|
    requires Holds(ring, p, bytes)
    ensures Holds(ring, q, bytes)
  {
    forall j | 0 <= j < |bytes| ensures At(ring, q + j) == bytes[j] {
      ModAdd(p, j, |ring|);
      ModAdd(q, j, |ring|);
      assert At(ring, p + j) == bytes[j];
    }
  }

  /** Writing at a truncated position is writing at the unbounded one. */
  lemma {:induction false} PutShifted(ring: seq<byte>, p: nat, q: nat, bytes: seq<byte>)
    requires |ring| > 0 && p % |ring| == q % |ring|
    ensures Put(ring, p, bytes) == Put(ring, q, bytes)
    decreases |bytes|
  {
    if bytes != [] {
      ModAdd(p, 1, |ring|);
      ModAdd(q, 1, |ring|);
      PutShifted(ring[p % |ring| := bytes[0]], p + 1, q + 1, bytes[1..]);
    }
  }

  lemma ViewShifted(ring: seq<byte>, p: nat, q: nat, n: nat)
    requires |ring| > 0 && p % |ring| == q % |ring|
    ensures View(ring, p, n) == View(ring, q, n)
  {
    HoldsShifted(ring, p, q, View(ring, p, n));
    assert forall j :: 0 <= j < n ==> View(ring, p, n)[j] == View(ring, q, n)[j];
  }

  /** What one record update leaves alone: positions, and everything about the other records. */
  lemma UpdateKeepsStarts(log: seq<Rec>, i: nat, r: Rec)
    requires i < |log| && |r.payload| == |log[i].payload|
    ensures forall k :: 0 <= k <= |log| ==> Start(log[i := r], k) == Start(log, k)
  {
    forall k | 0 <= k <= |log| ensures Start(log[i := r], k) == Start(log, k) {
      StartSame(log, log[i := r], k);
    }
  }

  /** All unread records lie in one window of the ring shorter than a lap. */
  lemma Window(cfg: Config, s: Sys, i: nat)
    requires Shape(cfg, s) && s.taken <= i < |s.log|
    ensures Start(s.log, s.taken) <= Start(s.log, i)
    ensures Start(s.log, i) + HDR_SZ + |s.log[i].payload| <= Start(s.log, |s.log|)
    ensures Start(s.log, |s.log|) < Start(s.log, s.taken) + |s.ring|
  {
    StartMonotone(s.log, s.taken, i);
    StartOrder(s.log, i, |s.log|);
    StrideBounds(|s.log[i].payload|);
  }

  /** A store inside record i, which is not yet passed, leaves every other unread record intact. */
  lemma StoreKeepsOthers(cfg: Config, s: Sys, i: nat, pos: nat, bytes: seq<byte>, k: nat)
    requires Shape(cfg, s) && Stored(s)
    requires s.taken <= i < |s.log| && s.taken <= k < |s.log| && k != i
    requires Start(s.log, i) <= pos && pos + |bytes| <= Start(s.log, i) + HDR_SZ + |s.log[i].payload|
    ensures RecAt(Put(s.ring, pos, bytes), Start(s.log, k), s.log[k])
  {
    Window(cfg, s, i);
    Window(cfg, s, k);
    StrideBounds(|s.log[i].payload|);
    StrideBounds(|s.log[k].payload|);
    if k < i {
      StartOrder(s.log, k, i);
    } else {
      StartOrder(s.log, i, k);
    }
    PutKeepsRec(s.ring, pos, bytes, Start(s.log, k), s.log[k]);
  }

  /** A producer's change to a record not yet settled does not touch the consumer's history. */
  lemma UpdateKeepsConsumer(cfg: Config, s: Sys, s': Sys, i: nat, r: Rec)
    requires Inv(cfg, s)
    requires i < |s.log| && s.log[i].phase.Busy? && |r.payload| == |s.log[i].payload|
    requires s' == s.(ring := s'.ring, log := s.log[i := r]) && |s'.ring| == |s.ring|
    ensures Shape(cfg, s') && Settled(s'.log, s'.taken)
    ensures ConsumerOk(cfg, s') && HistoryOk(cfg, s')
    ensures s.taken <= i
  {
    hide Start, Stored, RecAt, ConsumerOk, HistoryOk, Shape;
    assert s.taken <= i;
    UpdateKeepsStarts(s.log, i, r);
    UpdateKeepsShape(cfg, s, s', i, r);
    UpdateKeepsPc(cfg, s, s', i, r);
    UpdateKeepsHistory(cfg, s, s', i, r);
  }

  lemma UpdateKeepsShape(cfg: Config, s: Sys, s': Sys, i: nat, r: Rec)
    requires Shape(cfg, s) && i < |s.log| && |r.payload| == |s.log[i].payload|
    requires s' == s.(ring := s'.ring, log := s.log[i := r]) && |s'.ring| == |s.ring|
    requires forall k :: 0 <= k <= |s.log| ==> Start(s'.log, k) == Start(s.log, k)
    ensures Shape(cfg, s')
  {
    hide Start, Pow2, U32, U64;
  }

  lemma UpdateKeepsHistory(cfg: Config, s: Sys, s': Sys, i: nat, r: Rec)
    requires ConsumerOk(cfg, s) && HistoryOk(cfg, s) && s.taken <= i < |s.log| && s.log[i].phase.Busy?
    requires s' == s.(ring := s'.ring, log := s.log[i := r])
    ensures HistoryOk(cfg, s')
  {
    hide Payloads, BadCount, FailedCalls, Start, U32, U64;
    assert s'.log[..Decided(s)] == s.log[..Decided(s)];
    assert s'.log[..s.taken] == s.log[..s.taken];
  }

  lemma UpdateKeepsPc(cfg: Config, s: Sys, s': Sys, i: nat, r: Rec)
    requires Shape(cfg, s) && ConsumerOk(cfg, s)
    requires s.taken <= i < |s.log| && s.log[i].phase.Busy?
    requires s' == s.(ring := s'.ring, log := s.log[i := r])
    requires forall k :: 0 <= k <= |s.log| ==> Start(s'.log, k) == Start(s.log, k)
    ensures ConsumerOk(cfg, s')
  {
    hide Start, Pow2, U32, U64;
    match s.pc
    case Idle =>
    case Top(_, _, _) =>
    case Copy(_, _, _, _, _) =>
    case Store(_, _, _, _) =>
  }

  lemma UpdateKeepsStored(cfg: Config, s: Sys, i: nat, pos: nat, bytes: seq<byte>, r: Rec, s': Sys)
    requires Shape(cfg, s) && Stored(s)
    requires s.taken <= i < |s.log| && |r.payload| == |s.log[i].payload|
    requires Start(s.log, i) <= pos && pos + |bytes| <= Start(s.log, i) + HDR_SZ + |s.log[i].payload|
    requires s' == s.(ring := Put(s.ring, pos, bytes), log := s.log[i := r])
    requires RecAt(s'.ring, Start(s.log, i), r)
    ensures Stored(s')
  {
    UpdateKeepsStarts(s.log, i, r);
    forall k | s'.taken <= k < |s'.log| ensures RecAt(s'.ring, Start(s'.log, k), s'.log[k]) {
      if k != i {
        StoreKeepsOthers(cfg, s, i, pos, bytes, k);
      }
    }
  }

  lemma WriteKeepsInv(cfg: Config, s: Sys, i: nat, j: nat, b: byte, s': Sys)
    requires Inv(cfg, s) && StepWrite(s, i, j, b) == Some(s')
    ensures Inv(cfg, s')
  {
    hide ConsumerOk, HistoryOk, Settled, RecAt;
    var r := s.log[i].(payload := s.log[i].payload[j := b]);
    UpdateKeepsConsumer(cfg, s, s', i, r);
    Window(cfg, s, i);
    WriteOwnByte(s.ring, Start(s.log, i), s.log[i], j, b);
    UpdateKeepsStored(cfg, s, i, Start(s.log, i) + HDR_SZ + j, [b], r, s');
  }

  lemma WriteOwnByte(ring: seq<byte>, pos: nat, r: Rec, j: nat, b: byte)
    requires |ring| > 0 && RecAt(ring, pos, r) && j < |r.payload|
    requires HDR_SZ + |r.payload| <= |ring|
    ensures RecAt(Put(ring, pos + HDR_SZ + j, [b]), pos, r.(payload := r.payload[j := b]))
  {
    var ring' := Put(ring, pos + HDR_SZ + j, [b]);
    PutKeepsInterval(ring, pos + HDR_SZ + j, [b], pos, Bytes4(Header(|r.payload|, r.phase)));
    PutHolds(ring, pos + HDR_SZ + j, [b]);
    var payload' := r.payload[j := b];
    forall m | 0 <= m < |payload'| ensures At(ring', pos + HDR_SZ + m) == payload'[m] {
      if m == j {
        assert At(ring', pos + HDR_SZ + j + 0) == [b][0];
      } else {
        PutElsewhere(ring, pos + HDR_SZ + j, [b], pos + HDR_SZ + m);
      }
    }
  }

  lemma SettleOwnHeader(ring: seq<byte>, pos: nat, r: Rec, phase: Phase)
    requires |ring| > 0 && RecAt(ring, pos, r)
    requires HDR_SZ + |r.payload| <= |ring|
    ensures RecAt(Put(ring, pos, Bytes4(Header(|r.payload|, phase))), pos, r.(phase := phase))
  {
    PutHolds(ring, pos, Bytes4(Header(|r.payload|, phase)));
    PutKeepsInterval(ring, pos, Bytes4(Header(|r.payload|, phase)), pos + HDR_SZ, r.payload);
  }

  lemma SettleKeepsInv(cfg: Config, s: Sys, i: nat, discard: bool, s': Sys)
    requires Inv(cfg, s) && StepSettle(s, i, discard) == Some(s')
    ensures Inv(cfg, s')
  {
    hide ConsumerOk, HistoryOk, Settled, RecAt;
    var r := s'.log[i];
    UpdateKeepsConsumer(cfg, s, s', i, r);
    Window(cfg, s, i);
    SettleOwnHeader(s.ring, Start(s.log, i), s.log[i], r.phase);
    UpdateKeepsStored(cfg, s, i, Start(s.log, i), Bytes4(Header(|r.payload|, r.phase)), r, s');
  }

  /** A new reservation takes bytes that no unread record occupies, even seen round the ring. */
  lemma ReservationIsFree(cfg: Config, s: Sys, n: nat, i: nat, j: nat, m: nat)
    requires Shape(cfg, s) && Fits(cfg, s.prodWord, s.consWord, n)
    requires s.taken <= i < |s.log| && j < HDR_SZ + |s.log[i].payload| && m < Stride(n)
    ensures (Start(s.log, i) + j) % cfg.Size() != (Start(s.log, |s.log|) + m) % cfg.Size()
  {
    FitsExactly(cfg, s, n);
    Window(cfg, s, i);
    ModDistinct(Start(s.log, i) + j, Start(s.log, |s.log|) + m, cfg.Size());
  }

  /** The state after an accepted reservation, in unbounded positions. */
  lemma ReserveEffect(cfg: Config, s: Sys, n: nat, pgOff: seq<byte>, s': Sys)
    requires Shape(cfg, s) && n <= MAX_RECORD && |pgOff| == 4
    requires s' == Reserved(cfg, s, n, pgOff)
    ensures var p := Start(s.log, |s.log|);
      && s'.ring == Put(s.ring, p, Bytes4(Header(n, Busy)) + pgOff)
      && s'.log == s.log + [Rec(View(s'.ring, p + HDR_SZ, n), Busy)]
      && s' == s.(ring := s'.ring, prodWord := cfg.KernelWord(p + Stride(n)), log := s'.log)
  {
    var p := Start(s.log, |s.log|);
    TruncatedMod(cfg, p);
    PutShifted(s.ring, s.prodWord, p, Bytes4(Header(n, Busy)) + pgOff);
    PayloadViewShifted(cfg, s'.ring, s.prodWord, p, n);
    KernelWordAdd(cfg, p, Stride(n));
  }

  lemma PayloadViewShifted(cfg: Config, ring: seq<byte>, p: nat, q: nat, n: nat)
    requires |ring| == cfg.Size() && p % |ring| == q % |ring|
    ensures View(ring, p + HDR_SZ, n) == View(ring, q + HDR_SZ, n)
  {
    ModAdd(p, HDR_SZ, |ring|);
    ModAdd(q, HDR_SZ, |ring|);
    ViewShifted(ring, p + HDR_SZ, q + HDR_SZ, n);
  }

  lemma ReserveKeepsInv(cfg: Config, s: Sys, n: nat, pgOff: seq<byte>, s': Sys)
    requires Inv(cfg, s) && StepReserve(cfg, s, n, pgOff) == Some(s')
    ensures Inv(cfg, s')
  {
    hide Stored, ConsumerOk, HistoryOk, Settled, Put, View, Bytes4;
    if Fits(cfg, s.prodWord, s.consWord, n) {
      ReserveEffect(cfg, s, n, pgOff, s');
      ReserveKeepsShape(cfg, s, n, pgOff, s');
      ReserveKeepsStored(cfg, s, n, pgOff, s');
      AppendKeepsConsumer(cfg, s, s');
    }
  }

  lemma AppendKeepsConsumer(cfg: Config, s: Sys, s': Sys)
    requires Shape(cfg, s) && ConsumerOk(cfg, s) && HistoryOk(cfg, s) && Settled(s.log, s.taken)
    requires |s'.log| == |s.log| + 1 && s'.log[..|s.log|] == s.log
    requires s' == s.(ring := s'.ring, prodWord := s'.prodWord, log := s'.log)
    requires forall k :: 0 <= k <= |s.log| ==> Start(s'.log, k) == Start(s.log, k)
    ensures Settled(s'.log, s'.taken) && ConsumerOk(cfg, s') && HistoryOk(cfg, s')
  {
    hide Start;
    assert forall k :: 0 <= k < |s.log| ==> s'.log[k] == s.log[k];
    assert s'.log[..Decided(s)] == s.log[..Decided(s)];
    assert s'.log[..s.taken] == s.log[..s.taken];
  }

  lemma AppendKeepsStarts(log: seq<Rec>, r: Rec)
    ensures forall k :: 0 <= k <= |log| ==> Start(log + [r], k) == Start(log, k)
    ensures Start(log + [r], |log| + 1) == Start(log, |log|) + Stride(|r.payload|)
  {
    forall k | 0 <= k <= |log| ensures Start(log + [r], k) == Start(log, k) {
      StartSame(log, log + [r], k);
    }
  }

  lemma ReserveKeepsShape(cfg: Config, s: Sys, n: nat, pgOff: seq<byte>, s': Sys)
    requires Shape(cfg, s) && Fits(cfg, s.prodWord, s.consWord, n) && |pgOff| == 4
    requires s' == Reserved(cfg, s, n, pgOff)
    ensures Shape(cfg, s')
    ensures forall k :: 0 <= k <= |s.log| ==> Start(s'.log, k) == Start(s.log, k)
  {
    hide Put, View, Bytes4, Start, Stride, Pow2;
    ReserveEffect(cfg, s, n, pgOff, s');
    FitsExactly(cfg, s, n);
    AppendKeepsStarts(s.log, s'.log[|s.log|]);
  }

  lemma ReserveKeepsStored(cfg: Config, s: Sys, n: nat, pgOff: seq<byte>, s': Sys)
    requires Shape(cfg, s) && Stored(s) && Fits(cfg, s.prodWord, s.consWord, n) && |pgOff| == 4
    requires s' == Reserved(cfg, s, n, pgOff)
    requires forall k :: 0 <= k <= |s.log| ==> Start(s'.log, k) == Start(s.log, k)
    ensures Stored(s')
  {
    hide Put, View, Bytes4, Start, Stride, RecAt, Fits;
    FitsExactly(cfg, s, n);
    ReserveEffect(cfg, s, n, pgOff, s');
    StrideBounds(n);
    AppendKeepsStarts(s.log, s'.log[|s.log|]);
    var p := Start(s.log, |s.log|);
    forall k | s'.taken <= k < |s'.log| ensures RecAt(s'.ring, Start(s'.log, k), s'.log[k]) {
      if k < |s.log| {
        Window(cfg, s, k);
        PutKeepsRec(s.ring, p, Bytes4(Header(n, Busy)) + pgOff, Start(s.log, k), s.log[k]);
      } else {
        NewHeader(cfg, s.ring, p, n, pgOff);
        NewRecord(s'.ring, p, n);
      }
    }
  }

  lemma NewRecord(ring: seq<byte>, p: nat, n: nat)
    requires |ring| > 0 && n <= MAX_RECORD && Holds(ring, p, Bytes4(Header(n, Busy)))
    ensures RecAt(ring, p, Rec(View(ring, p + HDR_SZ, n), Busy))
  {
    hide Bytes4, At;
  }

  lemma NewHeader(cfg: Config, ring: seq<byte>, p: nat, n: nat, pgOff: seq<byte>)
    requires cfg.Valid() && |ring| == cfg.Size() && n <= MAX_RECORD && |pgOff| == 4
    ensures Holds(Put(ring, p, Bytes4(Header(n, Busy)) + pgOff), p, Bytes4(Header(n, Busy)))
  {
    SizeBounds(cfg);
    var word, header := Bytes4(Header(n, Busy)), Bytes4(Header(n, Busy)) + pgOff;
    PutHolds(ring, p, header);
    assert forall j :: 0 <= j < 4 ==> header[j] == word[j];
  }

  // ---- consumer steps ----

  lemma LoadsBytes(cfg: Config, ring: seq<byte>, p: nat, d: nat, bytes: seq<byte>, j: nat)
    requires cfg.Valid() && |ring| == cfg.Size() && Holds(ring, p + d, bytes)
    requires j < |bytes| && d + |bytes| <= |ring|
    ensures var o := BitAnd(U64(p), cfg.PosMask()) + d + j;
      o < 2 * |ring| && Mapped(ring, o) == bytes[j]
  {
    MaskedOffset(cfg, p);
    MappedIsAt(ring, p, d + j);
    assert At(ring, p + d + j) == bytes[j];
  }

  /** The load at start_ptr sees the header of the next record. */
  lemma LoadsHeader(cfg: Config, s: Sys)
    requires Shape(cfg, s) && Stored(s) && s.taken < |s.log|
    ensures var r := s.log[s.taken];
      LoadLength(cfg, s.ring, s.consWord) == Some(Header(|r.payload|, r.phase))
  {
    hide BitAnd, Start, Pow2;
    SizeBounds(cfg);
    var p, r := Start(s.log, s.taken), s.log[s.taken];
    var b := Bytes4(Header(|r.payload|, r.phase));
    Word4Bytes4(Header(|r.payload|, r.phase));
    assert RecAt(s.ring, p, r);
    LoadsBytes(cfg, s.ring, p, 0, b, 0);
    LoadsBytes(cfg, s.ring, p, 0, b, 1);
    LoadsBytes(cfg, s.ring, p, 0, b, 2);
    LoadsBytes(cfg, s.ring, p, 0, b, 3);
  }

  /** The callback's next byte is the producer's next byte, whatever happened meanwhile. */
  lemma LoadsPayloadByte(cfg: Config, s: Sys, j: nat)
    requires Shape(cfg, s) && Stored(s) && s.taken < |s.log|
    requires j < |s.log[s.taken].payload|
    ensures var o := BitAnd(s.consWord, cfg.PosMask()) + HDR_SZ + j;
      o < 2 * |s.ring| && Mapped(s.ring, o) == s.log[s.taken].payload[j]
  {
    hide BitAnd, Pow2;
    var p := Start(s.log, s.taken);
    Window(cfg, s, s.taken);
    assert RecAt(s.ring, p, s.log[s.taken]);
    LoadsBytes(cfg, s.ring, p, HDR_SZ, s.log[s.taken].payload, j);
  }

  /** The loop test is exact: the low 32 bits agree only at the snapshotted boundary itself. */
  lemma LoopTestExact(cfg: Config, s: Sys)
    requires Shape(cfg, s) && s.taken <= s.goal <= |s.log|
    ensures BitAnd(s.consWord, 0xFFFF_FFFF) == U32(Start(s.log, s.goal)) <==> s.taken == s.goal
  {
    SizeBounds(cfg);
    StartMonotone(s.log, s.taken, s.goal);
    StartMonotone(s.log, s.goal, |s.log|);
    LowBitsDecide(Start(s.log, s.goal), Start(s.log, s.taken));
    if s.taken < s.goal {
      StartOrder(s.log, s.taken, s.goal);
    }
  }

  lemma NextPosition(cfg: Config, s: Sys)
    requires Shape(cfg, s) && s.taken < |s.log|
    ensures var r := s.log[s.taken];
      U64(s.consWord + RoundLength(Header(|r.payload|, r.phase))) == U64(Start(s.log, s.taken + 1))
  {
    hide RoundLength, Stride, Pow2;
    var r := s.log[s.taken];
    RoundLengthIsStride(|r.payload|, r.phase.Busy?, r.phase.Discarded?);
    U64Add(Start(s.log, s.taken), Stride(|r.payload|));
  }

  /** What the consumer does at the top of its loop, in terms of the next record. */
  lemma TopStep(cfg: Config, s: Sys)
    requires Shape(cfg, s) && Stored(s) && ConsumerOk(cfg, s) && s.pc.Top?
    ensures StepConsume(cfg, s) == Some(
      if s.taken == s.goal || s.log[s.taken].phase.Busy? then
        s.(pc := Idle, outcomes := s.outcomes + [Consumed(s.pc.count)])
      else AtSettled(cfg, s, s.log[s.taken]))
  {
    LoopTestExact(cfg, s);
    if s.taken < s.goal {
      LoadsHeader(cfg, s);
      AtRecordExact(cfg, s);
    }
  }

  function AtSettled(cfg: Config, s: Sys, r: Rec): Sys
    requires s.pc.Top? && s.taken < |s.log|
  {
    var next := U64(Start(s.log, s.taken + 1));
    if IsGood(r, cfg.valueSize) then s.(pc := Copy(s.pc.snap, s.pc.cons, next, s.pc.count, []))
    else s.(pc := Store(s.pc.snap, next, s.pc.count, IsBad(r, cfg.valueSize)))
  }

  lemma AtRecordExact(cfg: Config, s: Sys)
    requires Shape(cfg, s) && s.pc.Top? && s.pc.cons == s.consWord && s.taken < |s.log|
    ensures var r := s.log[s.taken];
      AtRecord(cfg, s, s.pc.snap, s.pc.cons, s.pc.count, Header(|r.payload|, r.phase)) ==
        if r.phase.Busy? then s.(pc := Idle, outcomes := s.outcomes + [Consumed(s.pc.count)])
        else AtSettled(cfg, s, r)
  {
    hide RoundLength, BitAnd, Start, Stride;
    var r := s.log[s.taken];
    NextPosition(cfg, s);
    FlagBits(|r.payload|, r.phase.Busy?, r.phase.Discarded?);
  }

  /** Where only the consumer's own state changes, the ring's part of the invariant stays. */
  lemma KeepsMemory(cfg: Config, s: Sys, s': Sys)
    requires Shape(cfg, s) && Stored(s) && Settled(s.log, s.taken)
    requires s' == s.(pc := s'.pc, outcomes := s'.outcomes, delivered := s'.delivered, goal := s'.goal, base := s'.base)
    ensures Shape(cfg, s') && Stored(s') && Settled(s'.log, s'.taken)
  {
    hide Start, RecAt, Pow2, U32, U64;
  }

  lemma TopToIdle(cfg: Config, s: Sys, s': Sys)
    requires HistoryOk(cfg, s) && s.pc.Top?
    requires s' == s.(pc := Idle, outcomes := s.outcomes + [Consumed(s.pc.count)])
    ensures ConsumerOk(cfg, s') && HistoryOk(cfg, s')
  {
    hide Payloads, BadCount, FailedCalls;
    FailedCallsStep(s.outcomes, Consumed(s.pc.count));
  }

  lemma TopToRecord(cfg: Config, s: Sys, s': Sys)
    requires ConsumerOk(cfg, s) && HistoryOk(cfg, s) && s.pc.Top? && s.taken < s.goal
    requires !s.log[s.taken].phase.Busy? && s' == AtSettled(cfg, s, s.log[s.taken])
    ensures ConsumerOk(cfg, s') && HistoryOk(cfg, s')
  {
    hide Payloads, BadCount, FailedCalls, Start, U32, U64;
    PrefixStep(s.log, s.taken, cfg.valueSize);
    assert s.delivered + [] == s.delivered;
  }

  lemma TopKeepsInv(cfg: Config, s: Sys, s': Sys)
    requires Inv(cfg, s) && s.pc.Top? && StepConsume(cfg, s) == Some(s')
    ensures Inv(cfg, s')
  {
    hide Shape, Stored, Settled, HistoryOk, StepConsume, Start, U32, U64;
    TopStep(cfg, s);
    KeepsMemory(cfg, s, s');
    if s.taken == s.goal || s.log[s.taken].phase.Busy? {
      TopToIdle(cfg, s, s');
    } else {
      TopToRecord(cfg, s, s');
    }
  }

  lemma CopyKeepsInv(cfg: Config, s: Sys, s': Sys)
    requires Inv(cfg, s) && s.pc.Copy? && StepConsume(cfg, s) == Some(s')
    ensures Inv(cfg, s')
  {
    hide BitAnd, Pow2, Mapped, LoadLength, AtRecord, Start, U64, U32, Holds, RecAt;
    var r, got := s.log[s.taken], s.pc.got;
    if |got| < cfg.valueSize {
      LoadsPayloadByte(cfg, s, |got|);
      assert r.payload[..|got| + 1] == r.payload[..|got|] + [r.payload[|got|]];
    } else {
      assert got == r.payload;
      PrefixStep(s.log, s.taken, cfg.valueSize);
    }
  }

  lemma StoreKeepsInv(cfg: Config, s: Sys, s': Sys)
    requires Inv(cfg, s) && s.pc.Store? && StepConsume(cfg, s) == Some(s')
    ensures Inv(cfg, s')
  {
    hide BitAnd, Pow2, LoadLength, AtRecord, Start, U64, U32, RecAt;
    StoreKeepsShape(cfg, s, s');
    PrefixStep(s.log, s.taken, cfg.valueSize);
    FailedCallsStep(s.outcomes, WrongSize);
  }

  lemma StoreKeepsShape(cfg: Config, s: Sys, s': Sys)
    requires Shape(cfg, s) && Stored(s) && ConsumerOk(cfg, s)
    requires s.pc.Store? && StepConsume(cfg, s) == Some(s')
    ensures Shape(cfg, s') && Stored(s')
  {
    hide BitAnd, Pow2, LoadLength, AtRecord, U64, U32, RecAt, Settled, Stride;
    StrideBounds(|s.log[s.taken].payload|);
  }

  /** The invariant holds initially and every step keeps it. */
  lemma InvInit(cfg: Config, ring: seq<byte>)
    requires cfg.Valid() && |ring| == cfg.Size()
    ensures Inv(cfg, Fresh(ring))
  {
    SizeBounds(cfg);
  }

  lemma CallKeepsInv(cfg: Config, s: Sys, s': Sys)
    requires Inv(cfg, s) && s.pc.Idle? && StepConsume(cfg, s) == Some(s')
    ensures Inv(cfg, s')
  {
    hide Stored, Settled, HistoryOk, Start;
    KeepsMemory(cfg, s, s');
    if cfg.width.W64? {
      U32OfU64(Start(s.log, |s.log|));
    }
    IdleToTop(cfg, s, s');
  }

  lemma IdleToTop(cfg: Config, s: Sys, s': Sys)
    requires HistoryOk(cfg, s) && s.pc.Idle?
    requires s' == s.(pc := s'.pc, goal := s'.goal, base := s'.base) && s'.pc.Top?
    ensures HistoryOk(cfg, s')
  {
    hide Payloads, BadCount, FailedCalls;
  }

  lemma ConsumeKeepsInv(cfg: Config, s: Sys, s': Sys)
    requires Inv(cfg, s) && StepConsume(cfg, s) == Some(s')
    ensures Inv(cfg, s')
  {
    hide Inv, StepConsume;
    match s.pc
    case Idle => CallKeepsInv(cfg, s, s');
    case Top(_, _, _) => TopKeepsInv(cfg, s, s');
    case Copy(_, _, _, _, _) => CopyKeepsInv(cfg, s, s');
    case Store(_, _, _, _) => StoreKeepsInv(cfg, s, s');
  }

  lemma InvStep(cfg: Config, s: Sys, e: Event, s': Sys)
    requires Inv(cfg, s) && Step(cfg, s, e) == Some(s')
    ensures Inv(cfg, s')
  {
    hide Inv, StepReserve, StepWrite, StepSettle, StepConsume;
    match e
    case Reserve(n, pgOff) => ReserveKeepsInv(cfg, s, n, pgOff, s');
    case Write(i, j, b) => WriteKeepsInv(cfg, s, i, j, b, s');
    case Settle(i, discard) => SettleKeepsInv(cfg, s, i, discard, s');
    case Consume => ConsumeKeepsInv(cfg, s, s');
  }

  lemma {:induction false} InvRun(cfg: Config, s: Sys, es: seq<Event>, s': Sys)
    requires Inv(cfg, s) && Run(cfg, s, es) == Some(s')
    ensures Inv(cfg, s')
    decreases |es|
  {
    if es != [] {
      var s1 := Step(cfg, s, es[0]).value;
      InvStep(cfg, s, es[0], s1);
      InvRun(cfg, s1, es[1..], s');
    }
  }
}
