/** The ring buffer as a step system.

    Any number of kernel producers reserve, fill and settle (commit or discard) records while one
    user-space consumer runs ConsumeAll.  Every access to shared memory is a step of its own, in
    particular every payload byte the callback reads; steps interleave in any order.

    The kernel keeps its positions in an `unsigned long`, 32 or 64 bits wide; user space keeps the
    consumer position in 64 bits and looks only at the low 32 bits of the producer position.  The
    fields log, taken, goal and base record history: no step looks at them to decide what to do,
    except that a producer remembers where its own reservation lies. */
module RingModel {
  import opened Options
  import opened Words
  import opened RingLayout

  datatype Width = W32 | W64

  /** DEFINE_BPF_RINGBUF_EXT asserts a power-of-two size from 4 KiB to 256 MiB. */
  datatype Config = Config(width: Width, bits: nat, valueSize: nat) {
    ghost predicate Valid() { 12 <= bits <= 28 }

    function Size(): (n: nat) ensures n > 0 { Pow2(bits) }

    /** max_entries - 1. */
    function PosMask(): nat { Size() - 1 }

    /** What the kernel's `unsigned long` keeps of x. */
    function KernelWord(x: int): nat {
      match width
      case W32 => U32(x)
      case W64 => U64(x)
    }
  }

  datatype Phase = Busy | Committed | Discarded

  datatype Rec = Rec(payload: seq<byte>, phase: Phase)

  /** The header word of a record: BPF_RINGBUF_BUSY_BIT until settled. */
  function Header(n: nat, phase: Phase): Word32
    requires n <= MAX_RECORD
  {
    n + Flags(phase.Busy?, phase.Discarded?)
  }

  datatype Outcome = Consumed(count: nat) | WrongSize

  /** Where the consumer is in ConsumeAll, with its local variables. */
  datatype Pc =
    | Idle
    | Top(snap: nat, cons: nat, count: nat)
    | Copy(snap: nat, cons: nat, next: nat, count: nat, got: seq<byte>)
    | Store(snap: nat, next: nat, count: nat, failed: bool)

  datatype Sys = Sys(
    ring: seq<byte>, prodWord: nat, consWord: nat,
    pc: Pc, delivered: seq<seq<byte>>, outcomes: seq<Outcome>,
    log: seq<Rec>, taken: nat, goal: nat, base: nat)

  datatype Event =
    | Reserve(n: nat, pgOff: seq<byte>)
    | Write(i: nat, j: nat, b: byte)
    | Settle(i: nat, discard: bool)
    | Consume

  // ---- producers ----

  /** Where record i starts, counted without wrap-around. */
  function Start(log: seq<Rec>, i: nat): nat
    requires i <= |log|
  {
    if i == 0 then 0 else Start(log, i - 1) + Stride(|log[i - 1].payload|)
  }

  /** The kernel refuses a reservation that is too long or would leave no free byte; positions are
      compared in kernel words. */
  predicate Fits(cfg: Config, prodWord: nat, consWord: nat, n: nat) {
    && n <= MAX_RECORD
    && Stride(n) <= cfg.Size()
    && cfg.KernelWord(cfg.KernelWord(prodWord + Stride(n)) - cfg.KernelWord(consWord)) <= cfg.PosMask()
  }

  function StepReserve(cfg: Config, s: Sys, n: nat, pgOff: seq<byte>): Option<Sys>
    requires |s.ring| > 0
  {
    if |pgOff| != 4 then None
    else if Fits(cfg, s.prodWord, s.consWord, n) then Some(Reserved(cfg, s, n, pgOff))
    else Some(s)
  }

  function Reserved(cfg: Config, s: Sys, n: nat, pgOff: seq<byte>): Sys
    requires |s.ring| > 0 && n <= MAX_RECORD
  {
    var ring := Put(s.ring, s.prodWord, Bytes4(Header(n, Busy)) + pgOff);
    s.(ring := ring,
       prodWord := cfg.KernelWord(s.prodWord + Stride(n)),
       log := s.log + [Rec(View(ring, s.prodWord + HDR_SZ, n), Busy)])
  }

  /** A producer stores a byte of its own, still unsettled, record. */
  function StepWrite(s: Sys, i: nat, j: nat, b: byte): Option<Sys>
    requires |s.ring| > 0
  {
    if i < |s.log| && s.log[i].phase.Busy? && j < |s.log[i].payload| then
      Some(s.(ring := Put(s.ring, Start(s.log, i) + HDR_SZ + j, [b]),
              log := s.log[i := s.log[i].(payload := s.log[i].payload[j := b])]))
    else None
  }

  /** Commit or discard: one store of the length word. */
  function StepSettle(s: Sys, i: nat, discard: bool): Option<Sys>
    requires |s.ring| > 0
  {
    if i < |s.log| && s.log[i].phase.Busy? && |s.log[i].payload| <= MAX_RECORD then
      var phase := if discard then Discarded else Committed;
      Some(s.(ring := Put(s.ring, Start(s.log, i), Bytes4(Header(|s.log[i].payload|, phase))),
              log := s.log[i := s.log[i].(phase := phase)]))
    else None
  }

  // ---- the consumer ----

  /** The 32-bit load at start_ptr, through the double mapping. */
  function LoadLength(cfg: Config, ring: seq<byte>, cons: nat): Option<Word32> {
    var o := BitAnd(cons, cfg.PosMask());
    if o + 3 < 2 * |ring| then
      Some(Word4(Mapped(ring, o), Mapped(ring, o + 1), Mapped(ring, o + 2), Mapped(ring, o + 3)))
    else None
  }

  /** What the length word makes of the loop body up to the callback or the store. */
  function AtRecord(cfg: Config, s: Sys, snap: nat, cons: nat, count: nat, length: Word32): Sys {
    if IsBusy(length) then s.(pc := Idle, outcomes := s.outcomes + [Consumed(count)])
    else
      var next := U64(cons + RoundLength(length));
      if IsDiscarded(length) then s.(pc := Store(snap, next, count, false))
      else if length != cfg.valueSize then s.(pc := Store(snap, next, count, true))
      else s.(pc := Copy(snap, cons, next, count, []))
  }

  function StepConsume(cfg: Config, s: Sys): Option<Sys> {
    match s.pc
    case Idle =>
      Some(s.(pc := Top(U32(s.prodWord), s.consWord, 0), goal := |s.log|, base := |s.delivered|))
    case Top(snap, cons, count) =>
      if BitAnd(cons, 0xFFFF_FFFF) == snap then
        Some(s.(pc := Idle, outcomes := s.outcomes + [Consumed(count)]))
      else (
        match LoadLength(cfg, s.ring, cons)
        case None => None
        case Some(length) => Some(AtRecord(cfg, s, snap, cons, count, length)))
    case Copy(snap, cons, next, count, got) =>
      if |got| < cfg.valueSize then
        var o := BitAnd(cons, cfg.PosMask()) + HDR_SZ + |got|;
        if o < 2 * |s.ring| then
          Some(s.(pc := Copy(snap, cons, next, count, got + [Mapped(s.ring, o)])))
        else None
      else Some(s.(pc := Store(snap, next, count + 1, false), delivered := s.delivered + [got]))
    case Store(snap, next, count, failed) =>
      var s1 := s.(consWord := next, taken := s.taken + 1);
      if failed then Some(s1.(pc := Idle, outcomes := s1.outcomes + [WrongSize]))
      else Some(s1.(pc := Top(snap, next, count)))
  }

  /** One step; None when the event is not possible in s. */
  function Step(cfg: Config, s: Sys, e: Event): Option<Sys> {
    if |s.ring| == 0 then None
    else
      match e
      case Reserve(n, pgOff) => StepReserve(cfg, s, n, pgOff)
      case Write(i, j, b) => StepWrite(s, i, j, b)
      case Settle(i, discard) => StepSettle(s, i, discard)
      case Consume => StepConsume(cfg, s)
  }

  function Run(cfg: Config, s: Sys, es: seq<Event>): Option<Sys>
    decreases |es|
  {
    if es == [] then Some(s)
    else
      match Step(cfg, s, es[0])
      case None => None
      case Some(s1) => Run(cfg, s1, es[1..])
  }

  /** A ring just created: nothing reserved, its bytes arbitrary. */
  function Fresh(ring: seq<byte>): Sys {
    Sys(ring, 0, 0, Idle, [], [], [], 0, 0, 0)
  }

  // ---- what the consumer should see ----

  /** The payloads of the committed records of the right size, in reservation order. */
  function Payloads(log: seq<Rec>, valueSize: nat): seq<seq<byte>> {
    if log == [] then []
    else
      var r := log[|log| - 1];
      Payloads(log[..|log| - 1], valueSize) + (if IsGood(r, valueSize) then [r.payload] else [])
  }

  predicate IsGood(r: Rec, valueSize: nat) { r.phase.Committed? && |r.payload| == valueSize }

  predicate IsBad(r: Rec, valueSize: nat) { r.phase.Committed? && |r.payload| != valueSize }

  function BadCount(log: seq<Rec>, valueSize: nat): nat {
    if log == [] then 0
    else BadCount(log[..|log| - 1], valueSize) + (if IsBad(log[|log| - 1], valueSize) then 1 else 0)
  }

  function FailedCalls(outcomes: seq<Outcome>): nat {
    if outcomes == [] then 0
    else FailedCalls(outcomes[..|outcomes| - 1]) + (if outcomes[|outcomes| - 1].WrongSize? then 1 else 0)
  }

  /** Records whose consumption is decided, though perhaps not yet published. */
  function Decided(s: Sys): nat {
    if s.pc.Store? then s.taken + 1 else s.taken
  }
}
