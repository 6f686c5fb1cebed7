/** Bitmap records in the ring: what the handler reads of a field that a probe did not set. */
module BitmapRing {
  import opened Options
  import opened Words
  import opened RingLayout
  import opened RingModel
  import opened RingProof
  import opened RingTheorems
  import B = BitmapTracking

  /** struct BitmapAllocation: five 32-bit fields, padding, a pointer and 128 bytes of name. */
  const RECORD_SIZE: nat := 160
  const SIZE_OFFSET: nat := 16

  function Field32(payload: seq<byte>, at: nat): Word32
    requires at + 4 <= |payload|
  {
    Word4(payload[at], payload[at + 1], payload[at + 2], payload[at + 3])
  }

  function Field64(payload: seq<byte>, at: nat): Word64
    requires at + 8 <= |payload|
  {
    var low: nat, high: nat := Field32(payload, at), Field32(payload, at + 4);
    U64(low + 0x1_0000_0000 * high)
  }

  function Decode(payload: seq<byte>): B.Record
    requires |payload| == RECORD_SIZE
  {
    B.Record(Field32(payload, 0), Field32(payload, 4), Field32(payload, 8), Field32(payload, 12),
      Field32(payload, SIZE_OFFSET), Field64(payload, 24), payload[32..])
  }

  /** A record as the structure lies in memory, with four bytes of padding in front of the pointer. */
  function Layout(r: B.Record, padding: seq<byte>): seq<byte>
    requires |padding| == 4 && |r.activity| == 128
  {
    Bytes4(r.kind) + Bytes4(r.width) + Bytes4(r.height) + Bytes4(r.pixelStorage) + Bytes4(r.size) + padding
    + Bytes4(r.ptr % 0x1_0000_0000) + Bytes4(r.ptr / 0x1_0000_0000) + r.activity
  }

  /** What a probe fills in is what the handler reads. */
  lemma DecodesLayout(r: B.Record, padding: seq<byte>)
    requires |padding| == 4 && |r.activity| == 128
    ensures |Layout(r, padding)| == RECORD_SIZE && Decode(Layout(r, padding)) == r
  {
    hide Bytes4;
    var low, high := r.ptr % 0x1_0000_0000, r.ptr / 0x1_0000_0000;
    var a, b := Bytes4(r.kind) + Bytes4(r.width) + Bytes4(r.height) + Bytes4(r.pixelStorage) + Bytes4(r.size),
      Bytes4(low) + Bytes4(high) + r.activity;
    Bytes4Read(r.kind);
    Bytes4Read(r.width);
    Bytes4Read(r.height);
    Bytes4Read(r.pixelStorage);
    Bytes4Read(r.size);
    Bytes4Read(low);
    Bytes4Read(high);
    assert Layout(r, padding) == a + padding + b;
    assert Layout(r, padding)[32..] == r.activity;
  }

  lemma Bytes4Read(w: Word32)
    ensures |Bytes4(w)| == 4 && Word4(Bytes4(w)[0], Bytes4(w)[1], Bytes4(w)[2], Bytes4(w)[3]) == w
  {
    Word4Bytes4(w);
  }

  predicate Records(payloads: seq<seq<byte>>) {
    forall i :: 0 <= i < |payloads| ==> |payloads[i]| == RECORD_SIZE
  }

  function DecodeAll(payloads: seq<seq<byte>>): (es: seq<B.Record>)
    requires Records(payloads)
    ensures |es| == |payloads|
  {
    seq(|payloads|, i requires 0 <= i < |payloads| => Decode(payloads[i]))
  }

  // ---- bytes no producer stored ----

  /** A producer stores byte j of record i. */
  ghost predicate Written(es: seq<Event>, i: nat, j: nat) {
    exists e :: e in es && e.Write? && e.i == i && e.j == j
  }

  ghost predicate ZeroUnlessWritten(log: seq<Rec>, es: seq<Event>) {
    forall i: nat, j: nat :: i < |log| && j < |log[i].payload| && !Written(es, i, j) ==> log[i].payload[j] == 0
  }

  lemma ZeroStep(cfg: Config, s: Sys, e: Event, s': Sys, all: seq<Event>)
    requires Inv(cfg, s) && Step(cfg, s, e) == Some(s') && e in all
    requires ZeroAhead(s) && ZeroUnlessWritten(s.log, all) && Start(s'.log, |s'.log|) <= cfg.Size()
    ensures ZeroUnlessWritten(s'.log, all)
  {
    hide ZeroAhead, Put, View, Bytes4, Start, Inv, Fits;
    match e
    case Consume =>
      StepExtends(cfg, s, e, s');
      SameLog(cfg, s, s');
    case Reserve(n, pgOff) =>
      if |s'.log| > |s.log| {
        ReservedPayload(cfg, s, n, pgOff, s');
      }
    case Write(i, j, b) =>
      assert Written(all, i, j);
    case Settle(i, discard) =>
  }

  lemma SameLog(cfg: Config, s: Sys, s': Sys)
    requires StepConsume(cfg, s) == Some(s')
    ensures s'.log == s.log
  {
  }

  lemma ReservedPayload(cfg: Config, s: Sys, n: nat, pgOff: seq<byte>, s': Sys)
    requires Inv(cfg, s) && ZeroAhead(s) && StepReserve(cfg, s, n, pgOff) == Some(s') && |s'.log| > |s.log|
    requires Start(s'.log, |s'.log|) <= cfg.Size()
    ensures s'.log[..|s.log|] == s.log && |s'.log| == |s.log| + 1
    ensures forall j :: 0 <= j < |s'.log[|s.log|].payload| ==> s'.log[|s.log|].payload[j] == 0
  {
    hide ZeroAhead, Put, View, Bytes4, Start;
    ReserveEffect(cfg, s, n, pgOff, s');
    AppendKeepsStarts(s.log, s'.log[|s.log|]);
    StrideBounds(n);
    ReservedZeros(cfg, s, n, pgOff, s');
  }

  lemma {:induction false} ZeroRun(cfg: Config, s: Sys, es: seq<Event>, s': Sys, all: seq<Event>)
    requires Inv(cfg, s) && Run(cfg, s, es) == Some(s') && forall e :: e in es ==> e in all
    requires ZeroAhead(s) && ZeroUnlessWritten(s.log, all) && Start(s'.log, |s'.log|) <= cfg.Size()
    ensures Inv(cfg, s') && ZeroUnlessWritten(s'.log, all)
    decreases |es|
  {
    hide Inv, Step, ZeroAhead, ZeroUnlessWritten, Start;
    if es != [] {
      var s1 := Step(cfg, s, es[0]).value;
      InvStep(cfg, s, es[0], s1);
      ZeroAheadStep(cfg, s, es[0], s1);
      StartGrows(cfg, s1, es[1..], s');
      ZeroStep(cfg, s, es[0], s1, all);
      ZeroRun(cfg, s1, es[1..], s', all);
    }
  }

  lemma StartGrows(cfg: Config, s: Sys, es: seq<Event>, s': Sys)
    requires Run(cfg, s, es) == Some(s')
    ensures Start(s.log, |s.log|) <= Start(s'.log, |s'.log|)
  {
    hide Start, Run;
    RunExtends(cfg, s, es, s');
    StartSame(s.log, s'.log, |s.log|);
    StartMonotone(s'.log, |s.log|, |s'.log|);
  }

  // ---- what the handler makes of it ----

  predicate IsFree(r: Rec) { |r.payload| == RECORD_SIZE && Field32(r.payload, 0) == B.FREED }

  /** As apply_free_function does, whoever fills a free record leaves its size bytes alone. */
  ghost predicate FreesLeaveSize(log: seq<Rec>, es: seq<Event>) {
    forall i: nat, j: nat :: i < |log| && IsFree(log[i]) && SIZE_OFFSET <= j < SIZE_OFFSET + 4 ==> !Written(es, i, j)
  }

  lemma {:induction false} PayloadsAreRecords(log: seq<Rec>, valueSize: nat)
    ensures forall p :: p in Payloads(log, valueSize) ==>
      exists i :: 0 <= i < |log| && log[i].payload == p && |p| == valueSize
  {
    if log != [] {
      PayloadsAreRecords(log[..|log| - 1], valueSize);
    }
  }

  /** On the first lap of a zeroed ring every free record is delivered with size 0, so that after the
      handler has taken everything delivered its total is its maximum, whatever was freed. */
  lemma FirstLapNeverFalls(task: B.Task, cfg: Config, ring: seq<byte>, es: seq<Event>, s: Sys)
    requires cfg.Valid() && |ring| == cfg.Size() && forall i :: 0 <= i < |ring| ==> ring[i] == 0
    requires cfg.valueSize == RECORD_SIZE && Run(cfg, Fresh(ring), es) == Some(s)
    requires Start(s.log, |s.log|) <= cfg.Size() && FreesLeaveSize(s.log, es)
    ensures Records(s.delivered)
    ensures var records := DecodeAll(s.delivered);
      && (forall i :: 0 <= i < |records| && records[i].kind == B.FREED ==> records[i].size == 0)
      && (B.AllAccepted(task, records) ==>
            B.After(task, records).current == B.After(task, records).max == B.Total(records))
  {
    hide Run, Start, ZeroUnlessWritten, FreesLeaveSize, B.After, B.AllAccepted, B.Total, Payloads;
    InvInit(cfg, ring);
    FreshZeros(ring, es);
    ZeroRun(cfg, Fresh(ring), es, s, es);
    Delivery(cfg, ring, es, s);
    var decided := s.log[..Decided(s)];
    PayloadsAreRecords(decided, cfg.valueSize);
    assert forall p :: p in s.delivered ==> |p| == RECORD_SIZE;
    var records := DecodeAll(s.delivered);
    forall k | 0 <= k < |records| && records[k].kind == B.FREED ensures records[k].size == 0 {
      var i :| 0 <= i < |decided| && decided[i].payload == s.delivered[k];
      FreeIsZero(s.log, es, i);
    }
    if B.AllAccepted(task, records) {
      B.ZeroSizedFrees(task, records);
    }
  }

  lemma FreshZeros(ring: seq<byte>, es: seq<Event>)
    requires |ring| > 0 && forall i :: 0 <= i < |ring| ==> ring[i] == 0
    ensures ZeroAhead(Fresh(ring)) && ZeroUnlessWritten(Fresh(ring).log, es)
  {
  }

  lemma FreeIsZero(log: seq<Rec>, es: seq<Event>, i: nat)
    requires i < |log| && IsFree(log[i]) && FreesLeaveSize(log, es) && ZeroUnlessWritten(log, es)
    ensures Field32(log[i].payload, SIZE_OFFSET) == 0
  {
    hide Written;
    var p := log[i].payload;
    assert p[16] == 0 && p[17] == 0 && p[18] == 0 && p[19] == 0;
  }
}
