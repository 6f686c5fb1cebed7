/** BpfRingbufBase and its ConsumeAll, imperatively, with the producers running in between.

    The class reads the shared memory byte by byte.  Before each access the producers may do
    whatever `schedule` says next.  The ghost field `sys` follows along in the step system of
    RingModel: every access of ConsumeAll is one Consume step there. */
module RingConsumer {
  import opened Options
  import opened Words
  import opened RingLayout
  import opened RingModel
  import opened RingProof
  import opened RingTheorems

  class BpfRingbuf {
    const cfg: Config
    const data: array<byte>
    const mPosMask: nat
    const mValueSize: nat
    var mProducerPos: nat
    var mConsumerPos: nat
    var log: seq<Rec>
    var schedule: seq<seq<Event>>
    ghost const initial: seq<byte>
    ghost var trace: seq<Event>
    ghost var sys: Sys

    ghost predicate Valid()
      reads this, data
    {
      && cfg.Valid() && |initial| == cfg.Size()
      && Inv(cfg, sys)
      && Run(cfg, Fresh(initial), trace) == Some(sys)
      && mPosMask == cfg.PosMask() && mValueSize == cfg.valueSize
      && data[..] == sys.ring
      && mProducerPos == sys.prodWord && mConsumerPos == sys.consWord
      && log == sys.log
    }

    /** The step system moved on, and nothing but the producers touched it. */
    twostate predicate OnlyProducers()
      reads this, data
    {
      && Valid() && Kept(old(sys), sys) && old(trace) <= trace
    }

    /** The consumer took its step. */
    twostate predicate Stepped()
      reads this, data
    {
      && Valid() && StepConsume(cfg, old(sys)) == Some(sys) && trace == old(trace) + [Consume]
      && log == old(log) && data[..] == old(data[..]) && schedule == old(schedule)
    }

    /** A ring just created by the kernel. */
    constructor (cfg: Config, schedule: seq<seq<Event>>)
      requires cfg.Valid()
      ensures Valid() && sys.pc.Idle? && log == [] && sys.delivered == [] && trace == []
      ensures this.cfg == cfg && this.schedule == schedule && fresh(data)
    {
      var bytes := new byte[cfg.Size()](_ => 0);
      this.cfg := cfg;
      this.data := bytes;
      this.mPosMask := cfg.Size() - 1;
      this.mValueSize := cfg.valueSize;
      this.mProducerPos := 0;
      this.mConsumerPos := 0;
      this.log := [];
      this.schedule := schedule;
      this.initial := bytes[..];
      this.trace := [];
      this.sys := Fresh(bytes[..]);
      InvInit(cfg, bytes[..]);
    }

    /** One producer step, if it is one and is possible. */
    method KernelStep(e: Event)
      requires Valid()
      modifies this`mProducerPos, this`log, this`trace, this`sys, data
      ensures OnlyProducers()
    {
      hide Inv, Step, Run;
      if e.Consume? {
        return;
      }
      var view := Sys(data[..], mProducerPos, mConsumerPos, Idle, [], [], log, 0, 0, 0);
      ProducerLocal(cfg, sys, view, e);
      var r := Step(cfg, view, e);
      if r.Some? {
        ProducerOk(cfg, sys, e);
        RunSnoc(cfg, Fresh(initial), trace, e);
        sys := Step(cfg, sys, e).value;
        trace := trace + [e];
        mProducerPos := r.value.prodWord;
        log := r.value.log;
        WriteBack(r.value.ring);
      }
    }

    method WriteBack(ring: seq<byte>)
      requires |ring| == data.Length
      modifies data
      ensures data[..] == ring
    {
      forall i | 0 <= i < data.Length {
        data[i] := ring[i];
      }
    }

    /** The producers run until the consumer's next access. */
    method Interfere()
      requires Valid()
      modifies this`schedule, this`mProducerPos, this`log, this`trace, this`sys, data
      ensures OnlyProducers()
    {
      if schedule != [] {
        var batch := schedule[0];
        schedule := schedule[1..];
        for i := 0 to |batch|
          invariant OnlyProducers()
        {
          KernelStep(batch[i]);
        }
      }
    }

    /** The step system follows an access of the consumer that leaves shared memory alone. */
    ghost method Tick()
      requires Valid() && !sys.pc.Store?
      modifies this`sys, this`trace
      ensures Stepped()
    {
      hide StepConsume, Inv;
      TickOk(cfg, sys);
      RunSnoc(cfg, Fresh(initial), trace, Consume);
      StepIsConsume(cfg, sys);
      sys := StepConsume(cfg, sys).value;
      trace := trace + [Consume];
    }

    /** mConsumerPos->store: the record is passed. */
    method Publish(next: nat)
      requires Valid() && sys.pc.Store? && sys.pc.next == next
      modifies this`schedule, this`mProducerPos, this`mConsumerPos, this`log, this`trace, this`sys, data
      ensures Valid() && old(trace) <= trace && Extends(old(log), log)
      ensures mConsumerPos == next && sys.taken == old(sys.taken) + 1 && sys.goal == old(sys.goal)
      ensures sys.delivered == old(sys.delivered) && sys.base == old(sys.base)
      ensures sys.taken <= sys.goal <= |log|
      ensures old(sys.pc.failed) ==>
        log[sys.taken - 1].phase == Committed && |log[sys.taken - 1].payload| != mValueSize
      ensures if old(sys.pc.failed)
        then sys.pc == Idle && sys.outcomes == old(sys.outcomes) + [WrongSize]
        else sys.pc == Top(old(sys.pc.snap), next, old(sys.pc.count)) && sys.outcomes == old(sys.outcomes)
    {
      hide Inv;
      Interfere();
      StoreOk(cfg, sys);
      StoreStep(cfg, sys);
      StoreFacts(cfg, sys);
      RunSnoc(cfg, Fresh(initial), trace, Consume);
      StepIsConsume(cfg, sys);
      sys := StepConsume(cfg, sys).value;
      trace := trace + [Consume];
      mConsumerPos := next;
    }

    /** A load through the double mapping: the offset must stay inside it. */
    method Load(offset: nat) returns (b: byte)
      requires Valid() && offset < 2 * data.Length
      ensures b == Mapped(data[..], offset)
    {
      hide Inv, Run, Fresh;
      b := if offset < data.Length then data[offset] else data[offset - data.Length];
    }

    method LoadWord(offset: nat) returns (w: Word32)
      requires Valid() && offset + 3 < 2 * data.Length
      ensures w == Word4(Mapped(data[..], offset), Mapped(data[..], offset + 1),
                         Mapped(data[..], offset + 2), Mapped(data[..], offset + 3))
    {
      var b0 := Load(offset);
      var b1 := Load(offset + 1);
      var b2 := Load(offset + 2);
      var b3 := Load(offset + 3);
      w := Word4(b0, b1, b2, b3);
    }

    /** The volatile load of the length word at start_ptr. */
    method LoadLength(start_ptr: nat) returns (length: Word32)
      requires Valid() && sys.pc.Top? && start_ptr == BitAnd(sys.pc.cons, mPosMask)
      requires BitAnd(sys.pc.cons, 0xFFFF_FFFF) != sys.pc.snap
      modifies this`schedule, this`mProducerPos, this`log, this`trace, this`sys, data
      ensures Valid() && old(trace) <= trace && Extends(old(log), log)
      ensures sys.taken == old(sys.taken) && sys.goal == old(sys.goal) && sys.taken < sys.goal <= |log|
      ensures sys.delivered == old(sys.delivered) && sys.base == old(sys.base)
      ensures if IsBusy(length)
        then log[sys.taken].phase.Busy? && sys.pc == Idle
          && sys.outcomes == old(sys.outcomes) + [Consumed(old(sys.pc.count))]
        else sys.outcomes == old(sys.outcomes) && sys.pc == PcAtRecord(cfg, old(sys.pc), length)
    {
      hide Inv, BitAnd, Mapped;
      Interfere();
      LengthStep(cfg, sys);
      length := LoadWord(start_ptr);
      Tick();
    }

    /** isEmpty: the low halves of the positions agree exactly when every record is passed. */
    method IsEmpty() returns (empty: bool)
      requires Valid()
      ensures empty <==> sys.taken == |log|
    {
      empty := BitAnd(mConsumerPos, 0xFFFF_FFFF) == U32(mProducerPos);
      LoopTestExact(cfg, sys.(goal := |log|));
      PositionLow32(cfg, Start(log, |log|));
    }

    /** The callback copies the payload, byte by byte, while producers run. */
    method Callback(start: nat) returns (value: seq<byte>)
      requires Valid() && sys.pc.Copy? && sys.pc.got == []
      requires start == BitAnd(sys.pc.cons, mPosMask) + HDR_SZ
      modifies this`schedule, this`mProducerPos, this`log, this`trace, this`sys, data
      ensures Valid() && old(trace) <= trace && Extends(old(log), log)
      ensures sys.pc == Store(old(sys.pc.snap), old(sys.pc.next), old(sys.pc.count) + 1, false)
      ensures sys.delivered == old(sys.delivered) + [value]
      ensures sys.taken == old(sys.taken) && sys.goal == old(sys.goal) && sys.base == old(sys.base)
      ensures sys.outcomes == old(sys.outcomes)
    {
      hide StepConsume, Inv, BitAnd, Mapped, Payloads;
      value := [];
      while |value| < mValueSize
        invariant Valid() && old(trace) <= trace && Extends(old(log), log)
        invariant sys.pc == old(sys.pc).(got := value) && |value| <= mValueSize
        invariant sys.delivered == old(sys.delivered) && sys.outcomes == old(sys.outcomes)
        invariant sys.taken == old(sys.taken) && sys.goal == old(sys.goal) && sys.base == old(sys.base)
      {
        Interfere();
        CopyByte(cfg, sys);
        var b := Load(start + |value|);
        Tick();
        value := value + [b];
      }
      CopyDone(cfg, sys);
      Tick();
    }

    /** ConsumeAll: everything up to the snapshot or to the first busy record, or an error just
        past the first record of the wrong size. */
    method ConsumeAll() returns (r: Outcome, values: seq<seq<byte>>)
      requires Valid() && sys.pc.Idle?
      modifies this`schedule, this`mProducerPos, this`mConsumerPos, this`log, this`trace, this`sys, data
      ensures Valid() && sys.pc.Idle? && old(trace) <= trace && Extends(old(log), log)
      ensures sys.delivered == old(sys.delivered) + values
      ensures sys.delivered == Payloads(log[..sys.taken], mValueSize)
      ensures sys.outcomes == old(sys.outcomes) + [r]
      ensures old(sys.taken) <= sys.taken <= sys.goal <= |log| && |old(log)| <= sys.goal
      ensures match r
        case Consumed(count) =>
          count == |values| && (sys.taken == sys.goal || log[sys.taken].phase.Busy?)
        case WrongSize =>
          && old(sys.taken) < sys.taken
          && log[sys.taken - 1].phase == Committed && |log[sys.taken - 1].payload| != mValueSize
    {
      hide StepConsume, Inv, BitAnd, Mapped, Payloads, RoundLength, Start, Stride, Word4, IsBusy, IsDiscarded;
      hide U64, U32, Run, Fresh;
      values := [];
      var count: nat := 0;
      Interfere();
      CallStep(cfg, sys);
      var prod_pos: nat := U32(mProducerPos);
      var cons_pos: nat := mConsumerPos;
      Tick();
      while BitAnd(cons_pos, 0xFFFF_FFFF) != prod_pos
        invariant Valid() && old(trace) <= trace && Extends(old(log), log)
        invariant sys.pc == Top(prod_pos, cons_pos, count)
        invariant sys.delivered == old(sys.delivered) + values && sys.outcomes == old(sys.outcomes)
        invariant count == |values|
        invariant old(sys.taken) <= sys.taken && |old(log)| <= sys.goal
        decreases sys.goal - sys.taken
      {
        var start_ptr := BitAnd(cons_pos, mPosMask);
        var length := LoadLength(start_ptr);
        if IsBusy(length) {
          EndOfCall(cfg, sys);
          r := Consumed(count);
          return;
        }
        cons_pos := U64(cons_pos + RoundLength(length));
        if !IsDiscarded(length) {
          if length != mValueSize {
            Publish(cons_pos);
            EndOfCall(cfg, sys);
            r := WrongSize;
            return;
          }
          var value := Callback(start_ptr + HDR_SZ);
          values := values + [value];
          count := count + 1;
        }
        Publish(cons_pos);
      }
      LoopEnds(cfg, sys);
      Tick();
      EndOfCall(cfg, sys);
      r := Consumed(count);
    }

    /** pollRingBuf: -1 if the ring cannot be opened, 0 after a wait in vain, -2 if ConsumeAll failed,
        and otherwise the number of payloads; and what the callback was handed. */
    method PollRingBuf(created: bool) returns (code: int, values: seq<seq<byte>>)
      requires Valid() && sys.pc.Idle?
      modifies this`schedule, this`mProducerPos, this`mConsumerPos, this`log, this`trace, this`sys, data
      ensures Valid() && sys.pc.Idle? && old(trace) <= trace && Extends(old(log), log)
      ensures sys.delivered == old(sys.delivered) + values
      ensures code >= 0 ==> code == |values|
      ensures code == -1 <==> !created
      ensures code == -1 ==> sys == old(sys)
      ensures code == -2 ==>
        && sys.outcomes == old(sys.outcomes) + [WrongSize]
        && old(sys.taken) < sys.taken <= |log|
        && log[sys.taken - 1].phase == Committed && |log[sys.taken - 1].payload| != mValueSize
      ensures code >= 0 ==> sys.outcomes == old(sys.outcomes) || sys.outcomes == old(sys.outcomes) + [Consumed(code)]
      ensures code == 0 && created ==>
        sys.taken == |log| || sys.outcomes == old(sys.outcomes) + [Consumed(0)]
      ensures code >= -2
    {
      hide Inv, Run, Fresh, Start, Payloads;
      values := [];
      if !created {
        return -1, [];
      }
      Interfere();
      var empty := IsEmpty();
      if empty {
        return 0, [];
      }
      var r;
      r, values := ConsumeAll();
      match r {
        case Consumed(count) => code := count;
        case WrongSize => code := -2;
      }
    }

    /** poll_ring_buf: the payloads, or an error that drops them.  They are lost exactly if the call
        ends at a record of the wrong size after it has handed out at least one. */
    method PollRingBufVec(created: bool) returns (ok: bool, values: seq<seq<byte>>)
      requires Valid() && sys.pc.Idle?
      modifies this`schedule, this`mProducerPos, this`mConsumerPos, this`log, this`trace, this`sys, data
      ensures Valid() && sys.pc.Idle? && old(trace) <= trace && Extends(old(log), log)
      ensures ok ==> sys.delivered == old(sys.delivered) + values
      ensures !ok ==> values == []
      ensures !ok <==> !created || sys.outcomes == old(sys.outcomes) + [WrongSize]
      ensures sys.delivered != old(sys.delivered) + values
        <==> sys.outcomes == old(sys.outcomes) + [WrongSize] && |sys.delivered| > |old(sys.delivered)|
    {
      hide Inv, Run, Fresh, Start;
      ghost var o := sys.outcomes;
      assert (o + [WrongSize])[|o|] == WrongSize && forall n: nat :: (o + [Consumed(n)])[|o|] == Consumed(n);
      var code;
      code, values := PollRingBuf(created);
      ok := code >= 0;
      if !ok {
        values := [];
      }
    }
  }

  lemma PositionLow32(cfg: Config, pos: nat)
    ensures U32(cfg.KernelWord(pos)) == U32(pos)
  {
    U32OfU64(pos);
  }

  // ---- single steps of the consumer, spelled out ----

  lemma StepIsConsume(cfg: Config, s: Sys)
    requires |s.ring| > 0
    ensures Step(cfg, s, Consume) == StepConsume(cfg, s)
  {
  }

  lemma TickOk(cfg: Config, s: Sys)
    requires Inv(cfg, s) && !s.pc.Store?
    ensures |s.ring| > 0 && StepConsume(cfg, s).Some?
    ensures var s' := StepConsume(cfg, s).value;
      && Inv(cfg, s') && s'.ring == s.ring && s'.log == s.log
      && s'.prodWord == s.prodWord && s'.consWord == s.consWord
  {
    hide Inv, BitAnd, Mapped;
    RingNotEmpty(cfg, s);
    if !s.pc.Idle? {
      ConsumeProgress(cfg, s);
    }
    ConsumeKeepsInv(cfg, s, StepConsume(cfg, s).value);
  }

  lemma RingNotEmpty(cfg: Config, s: Sys)
    requires Inv(cfg, s)
    ensures |s.ring| > 0
  {
  }

  lemma StoreOk(cfg: Config, s: Sys)
    requires Inv(cfg, s) && s.pc.Store?
    ensures |s.ring| > 0 && StepConsume(cfg, s).Some? && Inv(cfg, StepConsume(cfg, s).value)
  {
    hide Inv;
    RingNotEmpty(cfg, s);
    ConsumeKeepsInv(cfg, s, StepConsume(cfg, s).value);
  }

  lemma ProducerOk(cfg: Config, s: Sys, e: Event)
    requires Inv(cfg, s) && !e.Consume? && Step(cfg, s, e).Some?
    ensures Inv(cfg, Step(cfg, s, e).value) && Kept(s, Step(cfg, s, e).value)
  {
    hide Inv, Step;
    var s' := Step(cfg, s, e).value;
    InvStep(cfg, s, e, s');
    ProducerKeepsPc(cfg, s, e, s');
    StepExtends(cfg, s, e, s');
  }

  lemma CallStep(cfg: Config, s: Sys)
    requires s.pc.Idle?
    ensures StepConsume(cfg, s) ==
      Some(s.(pc := Top(U32(s.prodWord), s.consWord, 0), goal := |s.log|, base := |s.delivered|))
  {
  }

  lemma CopyByte(cfg: Config, s: Sys)
    requires Inv(cfg, s) && s.pc.Copy? && |s.pc.got| < cfg.valueSize
    ensures var o := BitAnd(s.pc.cons, cfg.PosMask()) + HDR_SZ + |s.pc.got|;
      && o < 2 * |s.ring|
      && StepConsume(cfg, s) == Some(s.(pc := s.pc.(got := s.pc.got + [Mapped(s.ring, o)])))
  {
    hide BitAnd, Mapped, Stored, Settled, HistoryOk, Start;
    LoadsPayloadByte(cfg, s, |s.pc.got|);
  }

  lemma CopyDone(cfg: Config, s: Sys)
    requires s.pc.Copy? && |s.pc.got| == cfg.valueSize
    ensures StepConsume(cfg, s) == Some(s.(
      pc := Store(s.pc.snap, s.pc.next, s.pc.count + 1, false), delivered := s.delivered + [s.pc.got]))
  {
  }

  lemma StoreStep(cfg: Config, s: Sys)
    requires s.pc.Store?
    ensures var s1 := s.(consWord := s.pc.next, taken := s.taken + 1);
      StepConsume(cfg, s) == Some(
        if s.pc.failed then s1.(pc := Idle, outcomes := s.outcomes + [WrongSize])
        else s1.(pc := Top(s.pc.snap, s.pc.next, s.pc.count)))
  {
  }

  lemma StoreFacts(cfg: Config, s: Sys)
    requires Inv(cfg, s) && s.pc.Store?
    ensures s.taken < s.goal <= |s.log| && (s.pc.failed <==> IsBad(s.log[s.taken], cfg.valueSize))
  {
  }

  lemma LoopGoesOn(cfg: Config, s: Sys)
    requires Inv(cfg, s) && s.pc.Top? && BitAnd(s.pc.cons, 0xFFFF_FFFF) != s.pc.snap
    ensures s.taken < s.goal
  {
    LoopTestExact(cfg, s);
  }

  lemma LoopEnds(cfg: Config, s: Sys)
    requires Inv(cfg, s) && s.pc.Top? && BitAnd(s.pc.cons, 0xFFFF_FFFF) == s.pc.snap
    ensures s.taken == s.goal
    ensures StepConsume(cfg, s) == Some(s.(pc := Idle, outcomes := s.outcomes + [Consumed(s.pc.count)]))
  {
    hide BitAnd, Start;
    LoopTestExact(cfg, s);
  }

  /** Past the loop test, the length word decides; a busy word means a busy record. */
  lemma LengthStep(cfg: Config, s: Sys)
    requires Inv(cfg, s) && s.pc.Top? && BitAnd(s.pc.cons, 0xFFFF_FFFF) != s.pc.snap
    ensures var o := BitAnd(s.pc.cons, cfg.PosMask());
      && o + 3 < 2 * |s.ring|
      && var length := Word4(Mapped(s.ring, o), Mapped(s.ring, o + 1), Mapped(s.ring, o + 2), Mapped(s.ring, o + 3));
         && StepConsume(cfg, s) == Some(AtRecord(cfg, s, s.pc.snap, s.pc.cons, s.pc.count, length))
         && s.taken < s.goal <= |s.log|
         && (IsBusy(length) <==> s.log[s.taken].phase.Busy?)
         && (!IsBusy(length) && !IsDiscarded(length) && length != cfg.valueSize
             ==> IsBad(s.log[s.taken], cfg.valueSize))
  {
    hide BitAnd, Mapped, Start, RoundLength, Word4;
    LoopGoesOn(cfg, s);
    LoadsHeader(cfg, s);
    var r := s.log[s.taken];
    HeaderFlags(r);
  }

  lemma HeaderFlags(r: Rec)
    requires |r.payload| <= MAX_RECORD
    ensures var w := Header(|r.payload|, r.phase);
      && (IsBusy(w) <==> r.phase.Busy?) && (IsDiscarded(w) <==> r.phase.Discarded?)
      && (r.phase.Committed? ==> w == |r.payload|)
  {
    FlagBits(|r.payload|, r.phase.Busy?, r.phase.Discarded?);
  }

  lemma EndOfCall(cfg: Config, s: Sys)
    requires Inv(cfg, s) && s.pc.Idle?
    ensures s.taken <= |s.log| && s.delivered == Payloads(s.log[..s.taken], cfg.valueSize)
  {
  }

  /** Where a settled record's length word leads. */
  function PcAtRecord(cfg: Config, pc: Pc, length: Word32): Pc
    requires pc.Top?
  {
    var next := U64(pc.cons + RoundLength(length));
    if IsDiscarded(length) then Store(pc.snap, next, pc.count, false)
    else if length != cfg.valueSize then Store(pc.snap, next, pc.count, true)
    else Copy(pc.snap, pc.cons, next, pc.count, [])
  }

  /** What producers leave alone. */
  ghost predicate Kept(s: Sys, s': Sys) {
    && s'.pc == s.pc && s'.taken == s.taken && s'.goal == s.goal && s'.base == s.base
    && s'.consWord == s.consWord && s'.delivered == s.delivered && s'.outcomes == s.outcomes
    && Extends(s.log, s'.log)
  }

  /** A producer looks only at the ring, the two positions and its own reservations. */
  lemma ProducerLocal(cfg: Config, s: Sys, view: Sys, e: Event)
    requires !e.Consume?
    requires view.ring == s.ring && view.prodWord == s.prodWord && view.consWord == s.consWord
    requires view.log == s.log
    ensures match Step(cfg, view, e)
      case None => Step(cfg, s, e).None?
      case Some(v) =>
        && Step(cfg, s, e).Some?
        && var s' := Step(cfg, s, e).value;
           s' == s.(ring := v.ring, prodWord := v.prodWord, log := v.log) && |v.ring| == |s.ring|
  {
  }

  lemma {:induction false} RunSnoc(cfg: Config, s: Sys, es: seq<Event>, e: Event)
    requires Run(cfg, s, es).Some?
    ensures Run(cfg, s, es + [e]) == Step(cfg, Run(cfg, s, es).value, e)
    decreases |es|
  {
    if es == [] {
      assert ([] + [e])[1..] == [];
    } else {
      assert (es + [e])[1..] == es[1..] + [e];
      RunSnoc(cfg, Step(cfg, s, es[0]).value, es[1..], e);
    }
  }
}
