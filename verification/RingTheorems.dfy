/** The main results about the ring buffer: what whole runs deliver, that a call ends, that the
    bytes being read are stable, and that the width of the kernel's positions does not matter. */
module RingTheorems {
  import opened Options
  import opened Words
  import opened RingLayout
  import opened RingModel
  import opened RingProof

  // ---- what a run delivers ----

  /** In every interleaving, over any number of calls: the callback has seen exactly the payloads
      of the committed, right-sized records of a prefix of the reservation order, in that order.
      Every record of the prefix is settled, the published consumer position is the boundary of a
      record, and the failed calls are as many as the wrong-sized records passed. */
  lemma Delivery(cfg: Config, ring: seq<byte>, es: seq<Event>, s: Sys)
    requires cfg.Valid() && |ring| == cfg.Size()
    requires Run(cfg, Fresh(ring), es) == Some(s)
    ensures s.taken <= Decided(s) <= |s.log|
    ensures s.delivered == Payloads(s.log[..Decided(s)], cfg.valueSize)
    ensures forall i :: 0 <= i < Decided(s) ==> !s.log[i].phase.Busy?
    ensures s.consWord == U64(Start(s.log, s.taken)) && Start(s.log, s.taken) % 8 == 0
    ensures FailedCalls(s.outcomes) == BadCount(s.log[..s.taken], cfg.valueSize)
    ensures Start(s.log, |s.log|) - Start(s.log, s.taken) <= cfg.PosMask()
  {
    hide Run, Stored, ConsumerOk, Start, Pow2, Payloads, BadCount, FailedCalls, U64, U32;
    InvInit(cfg, ring);
    InvRun(cfg, Fresh(ring), es, s);
    DecidedAreSettled(cfg, s);
    StartAligned(s.log, s.taken);
  }

  /** Record i is committed and of the right size. */
  predicate Deliverable(log: seq<Rec>, valueSize: nat, i: int) {
    0 <= i < |log| && log[i].phase == Committed && |log[i].payload| == valueSize
  }

  /** The places of the deliverable records, in order. */
  ghost predicate Picks(log: seq<Rec>, valueSize: nat, picks: seq<int>) {
    && (forall a, b :: 0 <= a < b < |picks| ==> picks[a] < picks[b])
    && (forall i :: i in picks <==> Deliverable(log, valueSize, i))
  }

  lemma {:induction false} PayloadsArePicked(log: seq<Rec>, valueSize: nat) returns (picks: seq<int>)
    ensures Picks(log, valueSize, picks) && |Payloads(log, valueSize)| == |picks|
    ensures forall k :: 0 <= k < |picks| ==>
      0 <= picks[k] < |log| && Payloads(log, valueSize)[k] == log[picks[k]].payload
  {
    hide Picks, Payloads, Deliverable;
    NothingPicked(valueSize);
    if log == [] {
      return [];
    }
    var n := |log| - 1;
    var before := PayloadsArePicked(log[..n], valueSize);
    PicksNext(log, valueSize, before);
    picks := if Deliverable(log, valueSize, n) then before + [n] else before;
    LastPayload(log, valueSize);
    forall k | 0 <= k < |picks|
      ensures 0 <= picks[k] < |log| && Payloads(log, valueSize)[k] == log[picks[k]].payload
    {
      if k < |before| {
        assert log[..n][before[k]] == log[before[k]];
      }
    }
  }

  lemma NothingPicked(valueSize: nat)
    ensures Picks([], valueSize, []) && Payloads([], valueSize) == []
  {
  }

  lemma LastPayload(log: seq<Rec>, valueSize: nat)
    requires log != []
    ensures Payloads(log, valueSize) == Payloads(log[..|log| - 1], valueSize)
      + (if Deliverable(log, valueSize, |log| - 1) then [log[|log| - 1].payload] else [])
  {
  }

  lemma PicksNext(log: seq<Rec>, valueSize: nat, before: seq<int>)
    requires log != [] && Picks(log[..|log| - 1], valueSize, before)
    ensures Picks(log, valueSize, if Deliverable(log, valueSize, |log| - 1) then before + [|log| - 1] else before)
  {
    var n := |log| - 1;
    forall i ensures Deliverable(log[..n], valueSize, i) <==> i < n && Deliverable(log, valueSize, i) {
    }
    forall a | 0 <= a < |before| ensures before[a] < n {
      assert before[a] in before;
    }
  }

  /** The committed records of another size among the first n. */
  function WrongSized(log: seq<Rec>, valueSize: nat, n: nat): set<int>
    requires n <= |log|
  {
    set i | 0 <= i < n && log[i].phase == Committed && |log[i].payload| != valueSize
  }

  lemma {:induction false} BadCounted(log: seq<Rec>, valueSize: nat, n: nat)
    requires n <= |log|
    ensures BadCount(log[..n], valueSize) == |WrongSized(log, valueSize, n)|
  {
    if n == 0 {
      assert WrongSized(log, valueSize, 0) == {};
    } else {
      hide BadCount, WrongSized;
      BadCounted(log, valueSize, n - 1);
      PrefixStep(log, n - 1, valueSize);
      WrongSizedNext(log, valueSize, n - 1);
    }
  }

  lemma WrongSizedNext(log: seq<Rec>, valueSize: nat, n: nat)
    requires n < |log|
    ensures |WrongSized(log, valueSize, n + 1)| ==
      |WrongSized(log, valueSize, n)| + if IsBad(log[n], valueSize) then 1 else 0
  {
    var before := WrongSized(log, valueSize, n);
    assert WrongSized(log, valueSize, n + 1) == if IsBad(log[n], valueSize) then before + {n as int} else before;
  }

  lemma {:induction false} FailuresCounted(outcomes: seq<Outcome>)
    ensures FailedCalls(outcomes) == multiset(outcomes)[WrongSize]
  {
    if outcomes != [] {
      var n := |outcomes| - 1;
      FailuresCounted(outcomes[..n]);
      assert outcomes == outcomes[..n] + [outcomes[n]];
    }
  }

  /** Spelled out: the k-th payload delivered is that of the k-th record, of those passed or being
      passed, that is committed and of the right size, and there are no others; and as many calls
      have failed as committed records of another size were passed. */
  lemma DeliveredExactly(cfg: Config, ring: seq<byte>, es: seq<Event>, s: Sys) returns (picks: seq<int>)
    requires cfg.Valid() && |ring| == cfg.Size()
    requires Run(cfg, Fresh(ring), es) == Some(s)
    ensures Decided(s) <= |s.log| && Picks(s.log[..Decided(s)], cfg.valueSize, picks)
    ensures |s.delivered| == |picks|
    ensures forall k :: 0 <= k < |picks| ==>
      0 <= picks[k] < |s.log| && s.delivered[k] == s.log[picks[k]].payload
    ensures s.taken <= |s.log| && multiset(s.outcomes)[WrongSize] == |WrongSized(s.log, cfg.valueSize, s.taken)|
  {
    hide Run, Fresh, Start, Payloads, BadCount, FailedCalls, Picks, WrongSized;
    Delivery(cfg, ring, es, s);
    picks := PayloadsArePicked(s.log[..Decided(s)], cfg.valueSize);
    FailuresCounted(s.outcomes);
    BadCounted(s.log, cfg.valueSize, s.taken);
  }

  /** History is never rewritten: records keep their place and length, and settled ones their
      contents. */
  ghost predicate Extends(log: seq<Rec>, log': seq<Rec>) {
    && |log| <= |log'|
    && forall i :: 0 <= i < |log| ==>
      && |log'[i].payload| == |log[i].payload|
      && (!log[i].phase.Busy? ==> log'[i] == log[i])
  }

  lemma StepExtends(cfg: Config, s: Sys, e: Event, s': Sys)
    requires Step(cfg, s, e) == Some(s')
    ensures Extends(s.log, s'.log)
    ensures s.taken <= s'.taken && s.delivered <= s'.delivered
  {
  }

  lemma {:induction false} RunExtends(cfg: Config, s: Sys, es: seq<Event>, s': Sys)
    requires Run(cfg, s, es) == Some(s')
    ensures Extends(s.log, s'.log)
    ensures s.taken <= s'.taken && s.delivered <= s'.delivered
    decreases |es|
  {
    if es != [] {
      var s1 := Step(cfg, s, es[0]).value;
      StepExtends(cfg, s, es[0], s1);
      RunExtends(cfg, s1, es[1..], s');
    }
  }

  // ---- from the producers' stores to the log ----

  predicate Stores(e: Event, i: nat, j: nat) { e.Write? && e.i == i && e.j == j }

  /** Steps that neither store the byte nor settle the record leave the byte and the phase alone. */
  lemma KeptByStep(cfg: Config, s: Sys, e: Event, s': Sys, i: nat, j: nat)
    requires Step(cfg, s, e) == Some(s') && i < |s.log| && j < |s.log[i].payload|
    ensures i < |s'.log| && j < |s'.log[i].payload|
    ensures !Stores(e, i, j) ==> s'.log[i].payload[j] == s.log[i].payload[j]
    ensures !(e.Settle? && e.i == i) ==> s'.log[i].phase == s.log[i].phase
  {
    hide Put, View, Fits, Bytes4, Header, Start, Stride, BitAnd, LoadLength;
  }

  lemma {:induction false} ByteKept(cfg: Config, s: Sys, es: seq<Event>, s': Sys, i: nat, j: nat)
    requires Run(cfg, s, es) == Some(s') && i < |s.log| && j < |s.log[i].payload|
    requires forall e :: e in es ==> !Stores(e, i, j)
    ensures i < |s'.log| && j < |s'.log[i].payload| && s'.log[i].payload[j] == s.log[i].payload[j]
    decreases |es|
  {
    hide Step;
    if es != [] {
      var s1 := Step(cfg, s, es[0]).value;
      KeptByStep(cfg, s, es[0], s1, i, j);
      ByteKept(cfg, s1, es[1..], s', i, j);
    }
  }

  /** After any run byte j of record i is what was last stored there. */
  lemma {:induction false} LastStoreStays(cfg: Config, s: Sys, es: seq<Event>, s': Sys, k: nat)
    requires Run(cfg, s, es) == Some(s') && k < |es| && es[k].Write?
    requires forall m :: k < m < |es| ==> !Stores(es[m], es[k].i, es[k].j)
    ensures var i, j := es[k].i, es[k].j;
      i < |s'.log| && j < |s'.log[i].payload| && s'.log[i].payload[j] == es[k].b
    decreases |es|
  {
    hide Step;
    var s1 := Step(cfg, s, es[0]).value;
    if k == 0 {
      StepStores(cfg, s, es[0], s1);
      ByteKept(cfg, s1, es[1..], s', es[0].i, es[0].j);
    } else {
      assert es[1..][k - 1] == es[k];
      LastStoreStays(cfg, s1, es[1..], s', k - 1);
    }
  }

  lemma StepStores(cfg: Config, s: Sys, e: Event, s1: Sys)
    requires Step(cfg, s, e) == Some(s1)
    ensures e.Write? ==> e.i < |s1.log| && e.j < |s1.log[e.i].payload| && s1.log[e.i].payload[e.j] == e.b
    ensures e.Settle? ==> e.i < |s1.log| && s1.log[e.i].phase == if e.discard then Discarded else Committed
  {
    hide Put, View, Fits, Bytes4, Header, Start, Stride, StepConsume, StepReserve;
  }

  /** A record is committed, or discarded, exactly if its producer has settled it so. */
  lemma {:induction false} PhaseIsSettled(cfg: Config, s: Sys, es: seq<Event>, s': Sys, i: nat)
    requires Run(cfg, s, es) == Some(s') && i < |s'.log|
    requires i < |s.log| ==> s.log[i].phase == Busy
    ensures s'.log[i].phase == Committed <==> exists k :: 0 <= k < |es| && es[k] == Settle(i, false)
    ensures s'.log[i].phase == Discarded <==> exists k :: 0 <= k < |es| && es[k] == Settle(i, true)
    decreases |es|
  {
    hide Step;
    if es != [] {
      var s1 := Step(cfg, s, es[0]).value;
      PhaseStep(cfg, s, es[0], s1, i);
      if i < |s1.log| && s1.log[i].phase != Busy {
        SettledOnce(cfg, s1, es[1..], s', i);
        RunExtends(cfg, s1, es[1..], s');
        assert forall k :: 0 < k < |es| ==> es[k] == es[1..][k - 1];
        assert es[0] == Settle(i, s1.log[i].phase == Discarded);
      } else {
        PhaseIsSettled(cfg, s1, es[1..], s', i);
        assert forall k :: 0 < k < |es| ==> es[k] == es[1..][k - 1];
        assert es[0] != Settle(i, true) && es[0] != Settle(i, false);
      }
    }
  }

  lemma PhaseStep(cfg: Config, s: Sys, e: Event, s1: Sys, i: nat)
    requires Step(cfg, s, e) == Some(s1) && (i < |s.log| ==> s.log[i].phase == Busy)
    ensures if e.Settle? && e.i == i
      then i < |s1.log| && s1.log[i].phase == if e.discard then Discarded else Committed
      else i < |s1.log| ==> s1.log[i].phase == Busy
  {
    hide Put, View, Fits, Bytes4, Header, Start, Stride, BitAnd, LoadLength;
  }

  lemma {:induction false} SettledOnce(cfg: Config, s: Sys, es: seq<Event>, s': Sys, i: nat)
    requires Run(cfg, s, es) == Some(s') && i < |s.log| && s.log[i].phase != Busy
    ensures forall k :: 0 <= k < |es| ==> !(es[k].Settle? && es[k].i == i)
    decreases |es|
  {
    hide Step;
    if es != [] {
      var s1 := Step(cfg, s, es[0]).value;
      NotSettledAgain(cfg, s, es[0], s1, i);
      SettledOnce(cfg, s1, es[1..], s', i);
      assert forall k :: 0 < k < |es| ==> es[k] == es[1..][k - 1];
    }
  }

  lemma NotSettledAgain(cfg: Config, s: Sys, e: Event, s1: Sys, i: nat)
    requires Step(cfg, s, e) == Some(s1) && i < |s.log| && s.log[i].phase != Busy
    ensures i < |s1.log| && s1.log[i].phase != Busy && !(e.Settle? && e.i == i)
  {
    hide Put, View, Fits, Bytes4, Header, Start, Stride, BitAnd, LoadLength;
  }

  // ---- refinement of an abstract queue ----

  /** The queue a user of the ring buffer imagines: no ring, no positions, no double mapping. */
  datatype Queue = Queue(pending: seq<Rec>, delivered: seq<seq<byte>>, failures: nat)

  datatype Action = Skip | Append(r: Rec) | Change(i: nat, r: Rec) | Take

  function Apply(q: Queue, a: Action, valueSize: nat): Queue
    requires a.Change? ==> a.i < |q.pending|
    requires a.Take? ==> q.pending != []
  {
    match a
    case Skip => q
    case Append(r) => q.(pending := q.pending + [r])
    case Change(i, r) => q.(pending := q.pending[i := r])
    case Take =>
      var r := q.pending[0];
      Queue(q.pending[1..],
            q.delivered + (if r.phase == Committed && |r.payload| == valueSize then [r.payload] else []),
            q.failures + (if r.phase == Committed && |r.payload| != valueSize then 1 else 0))
  }

  /** A producer may change only a busy record and not its length; only a settled head is taken. */
  predicate Allowed(q: Queue, a: Action) {
    match a
    case Skip => true
    case Append(r) => r.phase.Busy?
    case Change(i, r) =>
      i < |q.pending| && q.pending[i].phase.Busy? && |r.payload| == |q.pending[i].payload|
    case Take => q.pending != [] && !q.pending[0].phase.Busy?
  }

  function AbsQueue(cfg: Config, s: Sys): Queue
    requires Decided(s) <= |s.log|
  {
    Queue(s.log[Decided(s)..], s.delivered, BadCount(s.log[..Decided(s)], cfg.valueSize))
  }

  function ActionOf(s: Sys, e: Event, s': Sys): Action {
    match e
    case Reserve(_, _) => if |s'.log| > |s.log| then Append(s'.log[|s.log|]) else Skip
    case Write(i, _, _) => if Decided(s) <= i < |s'.log| then Change(i - Decided(s), s'.log[i]) else Skip
    case Settle(i, _) => if Decided(s) <= i < |s'.log| then Change(i - Decided(s), s'.log[i]) else Skip
    case Consume => if Decided(s') > Decided(s) then Take else Skip
  }

  /** The action is allowed, and leads from the one queue to the other. */
  ghost predicate Acts(cfg: Config, s: Sys, a: Action, s': Sys) {
    && Decided(s) <= |s.log| && Decided(s') <= |s'.log|
    && Allowed(AbsQueue(cfg, s), a)
    && AbsQueue(cfg, s') == Apply(AbsQueue(cfg, s), a, cfg.valueSize)
  }

  /** Every step of the ring is one step of the queue, or none. */
  lemma Refines(cfg: Config, s: Sys, e: Event, s': Sys)
    requires Inv(cfg, s) && Step(cfg, s, e) == Some(s')
    ensures Inv(cfg, s') && Acts(cfg, s, ActionOf(s, e, s'), s')
  {
    hide StepConsume, StepReserve, StepWrite, StepSettle, Inv, Acts, ActionOf;
    InvStep(cfg, s, e, s');
    DecidedAreSettled(cfg, s);
    if e.Consume? {
      ConsumeRefines(cfg, s, s');
    } else {
      ProducerRefines(cfg, s, e, s');
    }
  }

  lemma ProducerRefines(cfg: Config, s: Sys, e: Event, s': Sys)
    requires Decided(s) <= |s.log| && Settled(s.log, Decided(s))
    requires !e.Consume? && Step(cfg, s, e) == Some(s')
    ensures Acts(cfg, s, ActionOf(s, e, s'), s')
  {
    hide Put, View, Fits, Bytes4, Header, Start, Stride, Acts;
    match e
    case Reserve(n, pgOff) =>
      if |s'.log| > |s.log| {
        AppendActs(cfg, s, s', s'.log[|s.log|]);
      } else {
        SkipActs(cfg, s, s');
      }
    case Write(i, j, b) => ChangeActs(cfg, s, s', i, s'.log[i]);
    case Settle(i, discard) => ChangeActs(cfg, s, s', i, s'.log[i]);
  }

  lemma SkipActs(cfg: Config, s: Sys, s': Sys)
    requires Decided(s) <= |s.log| && Decided(s') == Decided(s)
    requires s'.log == s.log && s'.delivered == s.delivered
    ensures Acts(cfg, s, Skip, s')
  {
  }

  lemma AppendActs(cfg: Config, s: Sys, s': Sys, r: Rec)
    requires Decided(s) <= |s.log| && Decided(s') == Decided(s) && r.phase.Busy?
    requires s'.log == s.log + [r] && s'.delivered == s.delivered
    ensures Acts(cfg, s, Append(r), s')
  {
    hide BadCount;
    assert s'.log[..Decided(s)] == s.log[..Decided(s)];
    assert s'.log[Decided(s)..] == s.log[Decided(s)..] + [r];
  }

  lemma ChangeActs(cfg: Config, s: Sys, s': Sys, i: nat, r: Rec)
    requires Decided(s) <= i < |s.log| && Decided(s') == Decided(s)
    requires s.log[i].phase.Busy? && |r.payload| == |s.log[i].payload|
    requires s'.log == s.log[i := r] && s'.delivered == s.delivered
    ensures Acts(cfg, s, Change(i - Decided(s), r), s')
  {
    hide BadCount;
    assert s'.log[..Decided(s)] == s.log[..Decided(s)];
    assert s'.log[Decided(s)..] == s.log[Decided(s)..][i - Decided(s) := r];
  }

  lemma TakeActs(cfg: Config, s: Sys, s': Sys)
    requires Decided(s) < |s.log| && Decided(s') == Decided(s) + 1 && s'.log == s.log
    requires var r := s.log[Decided(s)];
      !r.phase.Busy? && s'.delivered == s.delivered + (if IsGood(r, cfg.valueSize) then [r.payload] else [])
    ensures Acts(cfg, s, Take, s')
  {
    hide BadCount, Payloads;
    var d := Decided(s);
    PrefixStep(s.log, d, cfg.valueSize);
    assert s.log[d..][0] == s.log[d] && s.log[d..][1..] == s.log[d + 1..];
  }

  lemma DecidedAreSettled(cfg: Config, s: Sys)
    requires Inv(cfg, s)
    ensures Decided(s) <= |s.log| && Settled(s.log, Decided(s))
  {
    hide Start, Stored, Payloads, BadCount, FailedCalls;
  }

  lemma ConsumeRefines(cfg: Config, s: Sys, s': Sys)
    requires Inv(cfg, s) && StepConsume(cfg, s) == Some(s')
    ensures Acts(cfg, s, ActionOf(s, Consume, s'), s')
  {
    hide BitAnd, Pow2, Mapped, LoadLength, AtRecord, Stored, Settled, Start, RecAt, HistoryOk, Acts, Shape;
    DecidedAreSettled(cfg, s);
    if s.pc.Top? {
      TopStep(cfg, s);
    }
    assert s.delivered + [] == s.delivered;
    if Decided(s') > Decided(s) {
      if s.pc.Copy? {
        assert s.pc.got == s.log[s.taken].payload;
      }
      TakeActs(cfg, s, s');
    } else {
      SkipActs(cfg, s, s');
    }
  }

  /** The queue after these actions, if each was allowed. */
  function ApplyAll(q: Queue, actions: seq<Action>, valueSize: nat): Option<Queue>
    decreases |actions|
  {
    if actions == [] then Some(q)
    else if !Allowed(q, actions[0]) then None
    else ApplyAll(Apply(q, actions[0], valueSize), actions[1..], valueSize)
  }

  /** What a run does to the queue. */
  function Actions(cfg: Config, s: Sys, es: seq<Event>): seq<Action>
    decreases |es|
  {
    if es == [] then []
    else
      match Step(cfg, s, es[0])
      case None => []
      case Some(s') => [ActionOf(s, es[0], s')] + Actions(cfg, s', es[1..])
  }

  lemma {:induction false} RunRefines(cfg: Config, s: Sys, es: seq<Event>, s': Sys)
    requires Inv(cfg, s) && Run(cfg, s, es) == Some(s')
    ensures Inv(cfg, s')
    ensures ApplyAll(AbsQueue(cfg, s), Actions(cfg, s, es), cfg.valueSize) == Some(AbsQueue(cfg, s'))
    decreases |es|
  {
    hide Inv, Step, ActionOf, Allowed, Apply, AbsQueue;
    DecidedAreSettled(cfg, s);
    if es != [] {
      var s1 := Step(cfg, s, es[0]).value;
      Refines(cfg, s, es[0], s1);
      RunRefines(cfg, s1, es[1..], s');
      assert ([ActionOf(s, es[0], s1)] + Actions(cfg, s1, es[1..]))[1..] == Actions(cfg, s1, es[1..]);
    }
  }

  /** Every run of the ring, from the start, is a run of the queue. */
  lemma RingIsQueue(cfg: Config, ring: seq<byte>, es: seq<Event>, s: Sys)
    requires cfg.Valid() && |ring| == cfg.Size()
    requires Run(cfg, Fresh(ring), es) == Some(s)
    ensures Decided(s) <= |s.log|
    ensures ApplyAll(Queue([], [], 0), Actions(cfg, Fresh(ring), es), cfg.valueSize) == Some(AbsQueue(cfg, s))
  {
    hide Run, Actions, ApplyAll;
    InvInit(cfg, ring);
    RunRefines(cfg, Fresh(ring), es, s);
  }

  // ---- reading is stable ----

  /** The byte at an offset into the doubly mapped area. */
  predicate SameByte(s: Sys, s': Sys, offset: nat) {
    offset < 2 * |s.ring| && offset < 2 * |s'.ring| && Mapped(s'.ring, offset) == Mapped(s.ring, offset)
  }

  function PayloadOffset(cfg: Config, s: Sys, j: nat): nat
    requires s.pc.Copy?
  {
    BitAnd(s.pc.cons, cfg.PosMask()) + HDR_SZ + j
  }

  lemma ProducerSparesRecord(cfg: Config, s: Sys, e: Event, s': Sys, j: nat)
    requires Inv(cfg, s) && s.pc.Copy? && !e.Consume? && Step(cfg, s, e) == Some(s')
    requires j < cfg.valueSize
    ensures SameByte(s, s', PayloadOffset(cfg, s, j))
  {
    hide BitAnd, Pow2, Mapped, Stored, Settled, HistoryOk, Start, StepReserve, StepWrite, StepSettle;
    InvStep(cfg, s, e, s');
    StepExtends(cfg, s, e, s');
    ProducerKeepsPc(cfg, s, e, s');
    LoadsPayloadByte(cfg, s, j);
    LoadsPayloadByte(cfg, s', j);
  }

  predicate ProducersOnly(es: seq<Event>) { forall i :: 0 <= i < |es| ==> !es[i].Consume? }

  lemma {:induction false} ProducersSpareRecord(cfg: Config, s: Sys, es: seq<Event>, s': Sys, j: nat)
    requires Inv(cfg, s) && s.pc.Copy? && ProducersOnly(es) && Run(cfg, s, es) == Some(s')
    requires j < cfg.valueSize
    ensures s'.pc == s.pc && SameByte(s, s', PayloadOffset(cfg, s, j))
    decreases |es|
  {
    hide Inv, Step, PayloadOffset;
    if es == [] {
      InReach(cfg, s, j);
    } else {
      var s1 := Step(cfg, s, es[0]).value;
      InvOnce(cfg, s, es[0], s1);
      ProducerKeepsPc(cfg, s, es[0], s1);
      ProducerSparesRecord(cfg, s, es[0], s1, j);
      SameOffset(cfg, s, s1, j);
      ProducersSpareRecord(cfg, s1, es[1..], s', j);
    }
  }

  lemma SameOffset(cfg: Config, s: Sys, s1: Sys, j: nat)
    requires s.pc.Copy? && s1.pc == s.pc
    ensures PayloadOffset(cfg, s1, j) == PayloadOffset(cfg, s, j)
  {
    hide BitAnd, Pow2;
  }

  lemma InvOnce(cfg: Config, s: Sys, e: Event, s1: Sys)
    requires Inv(cfg, s) && Step(cfg, s, e) == Some(s1)
    ensures Inv(cfg, s1)
  {
    hide Inv, Step;
    InvStep(cfg, s, e, s1);
  }

  lemma InReach(cfg: Config, s: Sys, j: nat)
    requires Inv(cfg, s) && s.pc.Copy? && j < cfg.valueSize
    ensures SameByte(s, s, PayloadOffset(cfg, s, j))
  {
    hide BitAnd, Pow2, Mapped, Stored, Settled, HistoryOk, Start;
    LoadsPayloadByte(cfg, s, j);
  }

  /** While the callback reads a record, the producers, however many steps they take, change none of
      the bytes it sees. */
  lemma ReadStability(cfg: Config, ring: seq<byte>, es: seq<Event>, s: Sys, meanwhile: seq<Event>, s': Sys, j: nat)
    requires cfg.Valid() && |ring| == cfg.Size() && Run(cfg, Fresh(ring), es) == Some(s) && s.pc.Copy?
    requires ProducersOnly(meanwhile) && Run(cfg, s, meanwhile) == Some(s') && j < cfg.valueSize
    ensures SameByte(s, s', PayloadOffset(cfg, s, j))
  {
    hide Run, SameByte, PayloadOffset, Inv;
    InvInit(cfg, ring);
    InvRun(cfg, Fresh(ring), es, s);
    ProducersSpareRecord(cfg, s, meanwhile, s', j);
  }

  lemma ProducerKeepsPc(cfg: Config, s: Sys, e: Event, s': Sys)
    requires !e.Consume? && Step(cfg, s, e) == Some(s')
    ensures s'.pc == s.pc && s'.taken == s.taken && s'.goal == s.goal && s'.consWord == s.consWord
    ensures s'.delivered == s.delivered && s'.outcomes == s.outcomes && s'.base == s.base
  {
  }

  // ---- calls ----

  /** How a call ends: with a count when it has reached its snapshot or a busy record, the count
      being the number of payloads it delivered; or with an error just past a wrong-sized record. */
  lemma ExitState(cfg: Config, ring: seq<byte>, es: seq<Event>, s: Sys, s': Sys)
    requires cfg.Valid() && |ring| == cfg.Size() && Run(cfg, Fresh(ring), es) == Some(s)
    requires !s.pc.Idle? && StepConsume(cfg, s) == Some(s') && s'.pc.Idle?
    ensures |s'.outcomes| == |s.outcomes| + 1 && s'.outcomes[..|s.outcomes|] == s.outcomes
    ensures var o := s'.outcomes[|s.outcomes|];
      match o
      case Consumed(count) =>
        && (s'.taken == s'.goal || (s'.taken < |s'.log| && s'.log[s'.taken].phase.Busy?))
        && count == |s'.delivered| - s'.base && s'.taken == s.taken
      case WrongSize =>
        && s'.taken == s.taken + 1 <= |s'.log|
        && s'.log[s.taken].phase == Committed && |s'.log[s.taken].payload| != cfg.valueSize
  {
    hide BitAnd, Pow2, Mapped, LoadLength, AtRecord, Stored, Settled, RecAt, HistoryOk, Run;
    InvInit(cfg, ring);
    InvRun(cfg, Fresh(ring), es, s);
    if s.pc.Top? {
      TopStep(cfg, s);
    }
  }

  /** An upper bound on the consumer steps left in the current call. */
  ghost function StepsLeft(cfg: Config, s: Sys): nat
    requires ConsumerOk(cfg, s)
  {
    match s.pc
    case Idle => 0
    case Top(_, _, _) => RecordSteps(cfg, s.goal - s.taken) + 1
    case Copy(_, _, _, _, got) =>
      RecordSteps(cfg, s.goal - s.taken - 1) + 3 + (cfg.valueSize - |got|)
    case Store(_, _, _, _) => RecordSteps(cfg, s.goal - s.taken - 1) + 2
  }

  function RecordSteps(cfg: Config, records: nat): nat {
    if records == 0 then 0 else RecordSteps(cfg, records - 1) + cfg.valueSize + 3
  }

  /** The consumer is never stuck, never reads outside the mapping, and gets closer to the end of
      its call with each of its steps; producers cannot push the end away. */
  lemma Progress(cfg: Config, s: Sys, e: Event)
    requires Inv(cfg, s) && !s.pc.Idle?
    ensures e.Consume? ==> Step(cfg, s, e).Some?
    ensures match Step(cfg, s, e)
      case None => true
      case Some(s') =>
        && Inv(cfg, s')
        && (if e.Consume? then s'.pc.Idle? || StepsLeft(cfg, s') < StepsLeft(cfg, s)
            else s'.pc == s.pc && StepsLeft(cfg, s') == StepsLeft(cfg, s))
  {
    hide BitAnd, Pow2, Mapped, LoadLength, AtRecord, Stored, Settled, RecAt, HistoryOk, Start, Put, View, Fits;
    if e.Consume? {
      ConsumeProgress(cfg, s);
    }
    if Step(cfg, s, e).Some? {
      InvStep(cfg, s, e, Step(cfg, s, e).value);
    }
  }

  lemma ConsumeProgress(cfg: Config, s: Sys)
    requires Inv(cfg, s) && !s.pc.Idle?
    ensures StepConsume(cfg, s).Some?
    ensures Inv(cfg, StepConsume(cfg, s).value)
    ensures var s' := StepConsume(cfg, s).value; s'.pc.Idle? || StepsLeft(cfg, s') < StepsLeft(cfg, s)
  {
    hide BitAnd, Pow2, Mapped, LoadLength, AtRecord, Stored, Settled, RecAt, HistoryOk, Start;
    if s.pc.Top? {
      TopStep(cfg, s);
    } else if s.pc.Copy? && |s.pc.got| < cfg.valueSize {
      LoadsPayloadByte(cfg, s, |s.pc.got|);
    }
    ConsumeKeepsInv(cfg, s, StepConsume(cfg, s).value);
  }

  function ConsumerSteps(es: seq<Event>): nat {
    if es == [] then 0 else (if es[0].Consume? then 1 else 0) + ConsumerSteps(es[1..])
  }

  /** Every call ends, whatever the producers do: once the consumer has taken StepsLeft steps, the
      call has returned at some point on the way. */
  lemma {:induction false} CallEnds(cfg: Config, s: Sys, es: seq<Event>)
    requires Inv(cfg, s) && Run(cfg, s, es).Some?
    requires ConsumerSteps(es) >= StepsLeft(cfg, s)
    ensures exists k :: 0 <= k <= |es| && Returned(cfg, s, es[..k])
    decreases |es|
  {
    hide Inv, Step, Run, ConsumerOk, StepsLeft;
    if s.pc.Idle? {
      ReturnedNow(cfg, s);
      assert Returned(cfg, s, es[..0]);
    } else {
      StepsLeftPositive(cfg, s);
      RunFirst(cfg, s, es);
      Progress(cfg, s, es[0]);
      var s1 := Step(cfg, s, es[0]).value;
      var k := 0;
      if s1.pc.Idle? {
        ReturnedNow(cfg, s1);
      } else {
        CallEnds(cfg, s1, es[1..]);
        k :| 0 <= k <= |es[1..]| && Returned(cfg, s1, es[1..][..k]);
      }
      assert Returned(cfg, s1, es[1..][..k]);
      assert [es[0]] + es[1..][..k] == es[..k + 1];
      ReturnedLater(cfg, s, es[0], s1, es[1..][..k]);
    }
  }

  lemma RunFirst(cfg: Config, s: Sys, es: seq<Event>)
    requires Run(cfg, s, es).Some? && es != []
    ensures Step(cfg, s, es[0]).Some? && Run(cfg, Step(cfg, s, es[0]).value, es[1..]).Some?
  {
  }

  lemma ReturnedNow(cfg: Config, s: Sys)
    requires s.pc.Idle?
    ensures Returned(cfg, s, [])
  {
  }

  lemma ReturnedLater(cfg: Config, s: Sys, e: Event, s1: Sys, es: seq<Event>)
    requires Step(cfg, s, e) == Some(s1) && Returned(cfg, s1, es)
    ensures Returned(cfg, s, [e] + es)
  {
    assert ([e] + es)[1..] == es;
  }

  lemma StepsLeftPositive(cfg: Config, s: Sys)
    requires Inv(cfg, s) && !s.pc.Idle?
    ensures StepsLeft(cfg, s) > 0
  {
  }

  predicate Returned(cfg: Config, s: Sys, es: seq<Event>) {
    Run(cfg, s, es).Some? && Run(cfg, s, es).value.pc.Idle?
  }

  // ---- kernels of either width ----

  /** The same system with the kernel's producer position cut to 32 bits. */
  function Narrow(s: Sys): Sys { s.(prodWord := U32(s.prodWord)) }

  function NarrowResult(r: Option<Sys>): Option<Sys> {
    match r
    case None => None
    case Some(s) => Some(Narrow(s))
  }

  /** A 32-bit and a 64-bit kernel take the same steps, across any number of wrap-arounds. */
  lemma WidthStep(cfg: Config, s: Sys, e: Event)
    requires cfg.width.W64? && Inv(cfg, s)
    ensures Step(cfg.(width := W32), Narrow(s), e) == NarrowResult(Step(cfg, s, e))
  {
    hide StepConsume, StepReserve, StepWrite, StepSettle, Narrow;
    assert |s.ring| == |Narrow(s).ring| == cfg.Size() by {
      WidthRing(cfg, s);
    }
    match e
    case Consume => WidthConsume(cfg, s);
    case Reserve(n, pgOff) => WidthReserve(cfg, s, n, pgOff);
    case Write(i, j, b) => WidthWrite(s, i, j, b);
    case Settle(i, discard) => WidthSettle(s, i, discard);
  }

  lemma WidthRing(cfg: Config, s: Sys)
    requires Inv(cfg, s)
    ensures |s.ring| == |Narrow(s).ring| == cfg.Size()
  {
  }

  lemma WidthConsume(cfg: Config, s: Sys)
    ensures StepConsume(cfg.(width := W32), Narrow(s)) == NarrowResult(StepConsume(cfg, s))
  {
    hide BitAnd, Mapped, Pow2, LoadLength;
    if s.pc.Top? {
      WidthLoad(cfg, s.ring, s.pc.cons);
    }
  }

  lemma WidthLoad(cfg: Config, ring: seq<byte>, cons: nat)
    ensures LoadLength(cfg.(width := W32), ring, cons) == LoadLength(cfg, ring, cons)
  {
    hide BitAnd, Mapped, Pow2;
  }

  lemma WidthReserve(cfg: Config, s: Sys, n: nat, pgOff: seq<byte>)
    requires cfg.width.W64? && Shape(cfg, s)
    ensures StepReserve(cfg.(width := W32), Narrow(s), n, pgOff) == NarrowResult(StepReserve(cfg, s, n, pgOff))
  {
    hide Shape, Reserved, Pow2;
    if |pgOff| == 4 {
      WidthFits(cfg, s, n);
      if n <= MAX_RECORD {
        WidthReserved(cfg, s, n, pgOff);
      }
    }
  }

  lemma WidthWrite(s: Sys, i: nat, j: nat, b: byte)
    requires |s.ring| > 0
    ensures StepWrite(Narrow(s), i, j, b) == NarrowResult(StepWrite(s, i, j, b))
  {
    hide Put, Start;
  }

  lemma WidthSettle(s: Sys, i: nat, discard: bool)
    requires |s.ring| > 0
    ensures StepSettle(Narrow(s), i, discard) == NarrowResult(StepSettle(s, i, discard))
  {
    hide Put, Start, Bytes4;
  }

  lemma WidthFits(cfg: Config, s: Sys, n: nat)
    requires cfg.width.W64? && Shape(cfg, s)
    ensures Fits(cfg.(width := W32), U32(s.prodWord), s.consWord, n) <==> Fits(cfg, s.prodWord, s.consWord, n)
  {
    U32OfU64(Start(s.log, |s.log|));
    assert Shape(cfg.(width := W32), Narrow(s));
    FitsExactly(cfg, s, n);
    FitsExactly(cfg.(width := W32), Narrow(s), n);
  }

  lemma WidthReserved(cfg: Config, s: Sys, n: nat, pgOff: seq<byte>)
    requires cfg.width.W64? && Shape(cfg, s) && n <= MAX_RECORD && |pgOff| == 4
    ensures Reserved(cfg.(width := W32), Narrow(s), n, pgOff) == Narrow(Reserved(cfg, s, n, pgOff))
  {
    hide Put, View, Bytes4, Start, Pow2, Stride, U32, U64;
    TruncatedMod(cfg, s.prodWord);
    PutShifted(s.ring, U32(s.prodWord), s.prodWord, Bytes4(Header(n, Busy)) + pgOff);
    PayloadViewShifted(cfg, Reserved(cfg, s, n, pgOff).ring, U32(s.prodWord), s.prodWord, n);
    WidthAdd(s.prodWord, Stride(n));
  }

  lemma WidthAdd(x: nat, d: nat)
    ensures U32(U32(x) + d) == U32(U64(x + d))
  {
    hide U32, U64;
    U32OfU64(x + d);
    U32Add(x, d);
  }

  lemma {:induction false} WidthRun(cfg: Config, s: Sys, es: seq<Event>)
    requires cfg.width.W64? && Inv(cfg, s)
    ensures Run(cfg.(width := W32), Narrow(s), es) == NarrowResult(Run(cfg, s, es))
    decreases |es|
  {
    if es != [] {
      WidthStep(cfg, s, es[0]);
      if Step(cfg, s, es[0]).Some? {
        InvStep(cfg, s, es[0], Step(cfg, s, es[0]).value);
        WidthRun(cfg, Step(cfg, s, es[0]).value, es[1..]);
      }
    }
  }

  /** So user space cannot tell the kernels apart: same deliveries, same results of calls, same
      published positions and same ring bytes. */
  lemma SameForBothWidths(bits: nat, valueSize: nat, ring: seq<byte>, es: seq<Event>)
    requires 12 <= bits <= 28 && |ring| == Pow2(bits)
    ensures var r32 := Run(Config(W32, bits, valueSize), Fresh(ring), es);
      var r64 := Run(Config(W64, bits, valueSize), Fresh(ring), es);
      match r64
      case None => r32.None?
      case Some(s64) =>
        && r32.Some?
        && r32.value.delivered == s64.delivered && r32.value.outcomes == s64.outcomes
        && r32.value.consWord == s64.consWord && r32.value.ring == s64.ring
        && r32.value.prodWord == U32(s64.prodWord)
  {
    var cfg := Config(W64, bits, valueSize);
    InvInit(cfg, ring);
    WidthRun(cfg, Fresh(ring), es);
  }

  // ---- capacity ----

  function Repeat(e: Event, k: nat): (es: seq<Event>)
    ensures |es| == k
  {
    if k == 0 then [] else [e] + Repeat(e, k - 1)
  }

  lemma {:induction false} FillUp(cfg: Config, s: Sys, n: nat, pgOff: seq<byte>, k: nat)
    requires Inv(cfg, s) && n <= MAX_RECORD && |pgOff| == 4 && s.taken == 0
    requires Start(s.log, |s.log|) == |s.log| * Stride(n)
    ensures var r := Run(cfg, s, Repeat(Reserve(n, pgOff), k));
      && r.Some?
      && (var room := cfg.PosMask() / Stride(n);
          |r.value.log| == if |s.log| + k <= room then |s.log| + k else room)
    decreases k
  {
    hide BitAnd, Pow2, Stored, Settled, HistoryOk, ConsumerOk, Put, View;
    var e := Reserve(n, pgOff);
    RoomExact(|s.log|, Stride(n), cfg.PosMask());
    if k > 0 {
      var s1 := Step(cfg, s, e).value;
      ReserveOnce(cfg, s, n, pgOff, s1);
      FillUp(cfg, s1, n, pgOff, k - 1);
      assert Repeat(e, k)[1..] == Repeat(e, k - 1);
    }
  }

  /** Without a consumer, a ring takes as many n-byte records as leave one byte free, and then
      drops the rest: 255 of 8 bytes in 4 KiB. */
  lemma Capacity(cfg: Config, ring: seq<byte>, n: nat, pgOff: seq<byte>, k: nat)
    requires cfg.Valid() && |ring| == cfg.Size() && n <= MAX_RECORD && |pgOff| == 4
    ensures var r := Run(cfg, Fresh(ring), Repeat(Reserve(n, pgOff), k));
      var room := cfg.PosMask() / Stride(n);
      r.Some? && |r.value.log| == if k <= room then k else room
  {
    InvInit(cfg, ring);
    FillUp(cfg, Fresh(ring), n, pgOff, k);
  }

  lemma ReserveOnce(cfg: Config, s: Sys, n: nat, pgOff: seq<byte>, s1: Sys)
    requires Inv(cfg, s) && n <= MAX_RECORD && |pgOff| == 4 && s.taken == 0
    requires Start(s.log, |s.log|) == |s.log| * Stride(n)
    requires Step(cfg, s, Reserve(n, pgOff)) == Some(s1)
    ensures Inv(cfg, s1) && s1.taken == 0
    ensures Start(s1.log, |s1.log|) == |s1.log| * Stride(n)
    ensures |s1.log| == |s.log| + (if |s.log| + 1 <= cfg.PosMask() / Stride(n) then 1 else 0)
  {
    hide BitAnd, Pow2, Stored, Settled, HistoryOk, ConsumerOk, Put, View;
    FitsExactly(cfg, s, n);
    RoomExact(|s.log|, Stride(n), cfg.PosMask());
    InvStep(cfg, s, Reserve(n, pgOff), s1);
    if Fits(cfg, s.prodWord, s.consWord, n) {
      ReserveKeepsShape(cfg, s, n, pgOff, s1);
      MulDistributes(|s.log|, 1, Stride(n));
    }
  }

  lemma RoomExact(m: nat, stride: nat, mask: nat)
    requires stride > 0
    ensures m * stride + stride <= mask <==> m + 1 <= mask / stride
    ensures m * stride <= mask ==> m <= mask / stride
  {
    var q, r := mask / stride, mask % stride;
    assert mask == q * stride + r;
    MulDistributes(m, 1, stride);
    MulDistributes(q, m, stride);
    if m <= q {
      MulNonNegative(q - m, stride);
      if m < q {
        MulAtLeast(q - m, stride);
      }
    } else {
      MulDistributes(m, q, stride);
      MulAtLeast(m - q, stride);
    }
  }

  // ---- what a reserved record holds ----

  ghost predicate ZeroFrom(ring: seq<byte>, from: nat)
    requires |ring| > 0
  {
    forall q: nat :: from <= q < |ring| ==> At(ring, q) == 0
  }

  /** What no reservation has reached. */
  ghost predicate ZeroAhead(s: Sys) { |s.ring| > 0 && ZeroFrom(s.ring, Start(s.log, |s.log|)) }

  lemma PutBehind(ring: seq<byte>, pos: nat, bytes: seq<byte>, from: nat, from': nat)
    requires |ring| > 0 && ZeroFrom(ring, from) && from <= from' && pos + |bytes| <= from'
    ensures ZeroFrom(Put(ring, pos, bytes), from')
  {
    hide At, Put;
    forall q: nat | from' <= q < |ring| ensures At(Put(ring, pos, bytes), q) == 0 {
      PutElsewhere(ring, pos, bytes, q);
    }
  }

  lemma ZeroAheadStep(cfg: Config, s: Sys, e: Event, s': Sys)
    requires Inv(cfg, s) && Step(cfg, s, e) == Some(s') && ZeroAhead(s)
    ensures ZeroAhead(s')
  {
    hide ZeroFrom, Start, Put, View, Bytes4, Stored, HistoryOk, ConsumerOk, Settled, BitAnd, Pow2, Mapped;
    var end := Start(s.log, |s.log|);
    match e
    case Consume =>
    case Reserve(n, pgOff) =>
      if Fits(cfg, s.prodWord, s.consWord, n) {
        ReserveEffect(cfg, s, n, pgOff, s');
        AppendKeepsStarts(s.log, s'.log[|s.log|]);
        StrideBounds(n);
        PutBehind(s.ring, end, Bytes4(Header(n, Busy)) + pgOff, end, end + Stride(n));
      }
    case Write(i, j, b) =>
      StartOrder(s.log, i, |s.log|);
      StrideBounds(|s.log[i].payload|);
      UpdateKeepsStarts(s.log, i, s'.log[i]);
      PutBehind(s.ring, Start(s.log, i) + HDR_SZ + j, [b], end, end);
    case Settle(i, discard) =>
      StartOrder(s.log, i, |s.log|);
      StrideBounds(|s.log[i].payload|);
      UpdateKeepsStarts(s.log, i, s'.log[i]);
      PutBehind(s.ring, Start(s.log, i), Bytes4(Header(|s.log[i].payload|, s'.log[i].phase)), end, end);
  }

  lemma {:induction false} ZeroAheadRun(cfg: Config, s: Sys, es: seq<Event>, s': Sys)
    requires Inv(cfg, s) && Run(cfg, s, es) == Some(s') && ZeroAhead(s)
    ensures Inv(cfg, s') && ZeroAhead(s')
    decreases |es|
  {
    hide Step, ZeroAhead;
    if es != [] {
      var s1 := Step(cfg, s, es[0]).value;
      InvStep(cfg, s, es[0], s1);
      ZeroAheadStep(cfg, s, es[0], s1);
      ZeroAheadRun(cfg, s1, es[1..], s');
    }
  }

  /** On the first lap of a zeroed ring a reservation hands out zeros: a field that the producer does
      not set is 0. */
  lemma FirstLapIsZero(cfg: Config, ring: seq<byte>, es: seq<Event>, s: Sys, n: nat, pgOff: seq<byte>)
    requires cfg.Valid() && |ring| == cfg.Size() && forall i :: 0 <= i < |ring| ==> ring[i] == 0
    requires Run(cfg, Fresh(ring), es) == Some(s) && n <= MAX_RECORD && |pgOff| == 4
    requires Start(s.log, |s.log|) + HDR_SZ + n <= cfg.Size()
    ensures |s.ring| == cfg.Size()
    ensures var payload := Reserved(cfg, s, n, pgOff).log[|s.log|].payload;
      |payload| == n && forall j :: 0 <= j < n ==> payload[j] == 0
  {
    InvInit(cfg, ring);
    ZeroAheadRun(cfg, Fresh(ring), es, s);
    ReservedZeros(cfg, s, n, pgOff, Reserved(cfg, s, n, pgOff));
  }

  lemma ReservedZeros(cfg: Config, s: Sys, n: nat, pgOff: seq<byte>, s': Sys)
    requires Inv(cfg, s) && ZeroAhead(s) && n <= MAX_RECORD && |pgOff| == 4
    requires s' == Reserved(cfg, s, n, pgOff) && Start(s.log, |s.log|) + HDR_SZ + n <= cfg.Size()
    ensures var payload := s'.log[|s.log|].payload;
      |payload| == n && forall j :: 0 <= j < n ==> payload[j] == 0
  {
    hide Start, Put, At, Stored, HistoryOk, ConsumerOk, Settled, Pow2;
    var p, header := Start(s.log, |s.log|), Bytes4(Header(n, Busy)) + pgOff;
    ReserveEffect(cfg, s, n, pgOff, s');
    forall j | 0 <= j < n ensures s'.log[|s.log|].payload[j] == 0 {
      PutElsewhere(s.ring, p, header, p + HDR_SZ + j);
    }
  }
}
