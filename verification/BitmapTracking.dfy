/** Bitmap tracking: probes keep a set of live bitmaps in the kernel and emit records; the user-space
    handler rebuilds the live bitmaps from the records and keeps a snapshot of the moment their
    total size was highest. */
module BitmapTracking {
  import opened ByteStrings
  import opened Options
  import opened Words

  /** struct BitmapAllocation; a probe that does not set a field leaves what the ring held. */
  datatype Record = Record(
    kind: Word32, width: Word32, height: Word32, pixelStorage: Word32, size: Word32, ptr: Word64,
    activity: seq<byte>)

  const ALLOCATED: Word32 := 0
  const FREED: Word32 := 1
  const ACTIVITY: Word32 := 2

  // ---- the probes, for one process ----

  /** One probe firing: whether ring space and map space are there is up to the kernel. */
  datatype Probe =
    | Creation(r: Record, canReserve: bool, canInsert: bool)
    | Free(ptr: Word64, r: Record, canReserve: bool)
    | ActivityStart(r: Record, canReserve: bool)

  function Active(active: set<Word64>, p: Probe): set<Word64> {
    match p
    case Creation(r, canReserve, canInsert) => if canReserve && canInsert then active + {r.ptr} else active
    case Free(ptr, _, _) => active - {ptr}
    case ActivityStart(_, _) => active
  }

  function Emitted(active: set<Word64>, p: Probe): seq<Record> {
    match p
    case Creation(r, canReserve, _) => if canReserve then [r.(kind := ALLOCATED)] else []
    case Free(ptr, r, canReserve) => if ptr in active && canReserve then [r.(kind := FREED, ptr := ptr)] else []
    case ActivityStart(r, canReserve) => if canReserve then [r.(kind := ACTIVITY)] else []
  }

  datatype Kernel = Kernel(active: set<Word64>, output: seq<Record>)

  function RunProbes(ps: seq<Probe>): Kernel {
    if ps == [] then Kernel({}, [])
    else
      var k := RunProbes(ps[..|ps| - 1]);
      var p := ps[|ps| - 1];
      Kernel(Active(k.active, p), k.output + Emitted(k.active, p))
  }

  /** The programs of BitmapAllocation.c over their map and ring. */
  class Programs {
    var activeBitmaps: set<Word64>
    var output: seq<Record>
    ghost var fired: seq<Probe>

    ghost predicate Valid()
      reads this
    {
      Kernel(activeBitmaps, output) == RunProbes(fired)
    }

    constructor ()
      ensures Valid() && fired == []
    {
      activeBitmaps, output, fired := {}, [], [];
    }

    ghost method Fired(p: Probe)
      requires Kernel(activeBitmaps, output) ==
        Kernel(Active(RunProbes(fired).active, p), RunProbes(fired).output + Emitted(RunProbes(fired).active, p))
      modifies this`fired
      ensures Valid() && fired == old(fired) + [p]
    {
      assert (fired + [p])[..|fired|] == fired;
      fired := fired + [p];
    }

    /** bitmap_creation_for_snapshot: the record is reserved first, and submitted even if the map
        refuses the key; BPF_NOEXIST keeps a key that is there. */
    method BitmapCreationForSnapshot(r: Record, canReserve: bool, canInsert: bool) returns (ret: int)
      requires Valid()
      modifies this
      ensures Valid() && fired == old(fired) + [Creation(r, canReserve, canInsert)]
      ensures output == old(output) +
        if canReserve then [Record(0, r.width, r.height, r.pixelStorage, r.size, r.ptr, r.activity)] else []
      ensures activeBitmaps == if canReserve && canInsert then old(activeBitmaps) + {r.ptr} else old(activeBitmaps)
      ensures ret == if canReserve then 0 else 1
    {
      ghost var p := Creation(r, canReserve, canInsert);
      ret := 1;
      if canReserve {
        if r.ptr !in activeBitmaps && canInsert {
          activeBitmaps := activeBitmaps + {r.ptr};
        }
        output := output + [r.(kind := ALLOCATED)];
        ret := 0;
      } else {
        assert output + [] == output;
      }
      Fired(p);
    }

    /** apply_free_function: the key goes before the record is reserved. */
    method ApplyFreeFunction(ptr: Word64, r: Record, canReserve: bool) returns (ret: int)
      requires Valid()
      modifies this
      ensures Valid() && fired == old(fired) + [Free(ptr, r, canReserve)]
      ensures activeBitmaps == old(activeBitmaps) - {ptr}
      ensures output == old(output) +
        if ptr in old(activeBitmaps) && canReserve
        then [Record(1, r.width, r.height, r.pixelStorage, r.size, ptr, r.activity)] else []
      ensures ret == if ptr in old(activeBitmaps) && !canReserve then 1 else 0
    {
      ghost var p := Free(ptr, r, canReserve);
      ret := 0;
      assert output + [] == output;
      if ptr in activeBitmaps {
        activeBitmaps := activeBitmaps - {ptr};
        if canReserve {
          output := output + [r.(kind := FREED, ptr := ptr)];
        } else {
          ret := 1;
        }
      }
      Fired(p);
    }

    method ActivityPerformStart(r: Record, canReserve: bool) returns (ret: int)
      requires Valid()
      modifies this
      ensures Valid() && fired == old(fired) + [ActivityStart(r, canReserve)]
      ensures activeBitmaps == old(activeBitmaps)
      ensures output == old(output) +
        if canReserve then [Record(2, r.width, r.height, r.pixelStorage, r.size, r.ptr, r.activity)] else []
      ensures ret == if canReserve then 0 else 1
    {
      ghost var p := ActivityStart(r, canReserve);
      ret := 1;
      if canReserve {
        output := output + [r.(kind := ACTIVITY)];
        ret := 0;
      } else {
        assert output + [] == output;
      }
      Fired(p);
    }
  }

  // ---- what a record stream says, read backwards ----

  predicate About(e: Record, ptr: Word64) { e.kind <= FREED && e.ptr == ptr }

  /** The index of the last allocation or free of ptr, or -1. */
  function LastAbout(es: seq<Record>, ptr: Word64): (i: int)
    ensures -1 <= i < |es|
    ensures i >= 0 ==> About(es[i], ptr)
    ensures forall j :: i < j < |es| ==> !About(es[j], ptr)
  {
    if es == [] then -1
    else if About(es[|es| - 1], ptr) then |es| - 1
    else LastAbout(es[..|es| - 1], ptr)
  }

  /** The last thing heard of ptr is its allocation. */
  predicate Live(es: seq<Record>, ptr: Word64) {
    LastAbout(es, ptr) >= 0 && es[LastAbout(es, ptr)].kind == ALLOCATED
  }

  lemma LastAboutStep(es: seq<Record>, e: Record, ptr: Word64)
    ensures LastAbout(es + [e], ptr) == if About(e, ptr) then |es| else LastAbout(es, ptr)
    ensures Live(es + [e], ptr) <==> if About(e, ptr) then e.kind == ALLOCATED else Live(es, ptr)
  {
    assert (es + [e])[..|es|] == es;
  }

  /** Every bitmap active in the kernel is live in the stream; every free record follows an
      allocation of its pointer with nothing about that pointer in between. */
  ghost predicate Agrees(k: Kernel) {
    && (forall ptr :: ptr in k.active ==> Live(k.output, ptr))
    && forall i :: 0 <= i < |k.output| && k.output[i].kind == FREED ==> Live(k.output[..i], k.output[i].ptr)
  }

  lemma ActiveIsLiveStep(k: Kernel, p: Probe)
    requires Agrees(k)
    ensures Agrees(Kernel(Active(k.active, p), k.output + Emitted(k.active, p)))
  {
    hide Live, LastAbout;
    var es := Emitted(k.active, p);
    var output := k.output + es;
    if es == [] {
      assert output == k.output;
    } else {
      assert es == [es[0]];
      forall ptr | ptr in Active(k.active, p) ensures Live(output, ptr) {
        LastAboutStep(k.output, es[0], ptr);
      }
      forall i | 0 <= i < |output| && output[i].kind == FREED
        ensures Live(output[..i], output[i].ptr)
      {
        if i < |k.output| {
          assert output[..i] == k.output[..i];
        } else {
          assert output[..i] == k.output;
        }
      }
    }
  }

  /** Both hold after any firings. */
  lemma {:induction false} ActiveIsLive(ps: seq<Probe>)
    ensures Agrees(RunProbes(ps))
  {
    if ps != [] {
      var before, p := RunProbes(ps[..|ps| - 1]), ps[|ps| - 1];
      ActiveIsLive(ps[..|ps| - 1]);
      ActiveIsLiveStep(before, p);
    }
  }

  /** No active-set insert fails once its record is reserved, and no free of an active bitmap finds
      the ring full. */
  predicate NothingLost(ps: seq<Probe>) {
    ps == [] ||
    (var p := ps[|ps| - 1];
     && NothingLost(ps[..|ps| - 1])
     && (p.Creation? && p.canReserve ==> p.canInsert)
     && (p.Free? && p.ptr in RunProbes(ps[..|ps| - 1]).active ==> p.canReserve))
  }

  /** Then the stream determines the kernel's set. */
  lemma {:induction false} LiveIsActive(ps: seq<Probe>, ptr: Word64)
    requires NothingLost(ps)
    ensures ptr in RunProbes(ps).active <==> Live(RunProbes(ps).output, ptr)
  {
    if ps != [] {
      LiveIsActive(ps[..|ps| - 1], ptr);
      LiveIsActiveStep(RunProbes(ps[..|ps| - 1]), ps[|ps| - 1], ptr);
    }
  }

  lemma LiveIsActiveStep(k: Kernel, p: Probe, ptr: Word64)
    requires ptr in k.active <==> Live(k.output, ptr)
    requires p.Creation? && p.canReserve ==> p.canInsert
    requires p.Free? && p.ptr in k.active ==> p.canReserve
    ensures ptr in Active(k.active, p) <==> Live(k.output + Emitted(k.active, p), ptr)
  {
    hide Live, LastAbout;
    var es := Emitted(k.active, p);
    if es == [] {
      assert k.output + es == k.output;
    } else {
      assert es == [es[0]];
      LastAboutStep(k.output, es[0], ptr);
    }
  }

  // ---- the handler ----

  datatype Metadata = Metadata(uid: int, width: Word32, height: Word32, pixelStorage: Word32, activity: seq<byte>)

  datatype Handler = Handler(
    bitmaps: map<Word64, Metadata>, current: int, max: int, snapshot: multiset<Metadata>, activity: seq<byte>)

  const START: Handler := Handler(map[], 0, 0, multiset{}, [])

  /** The values of a map, counted once per key. */
  ghost function ValuesOf(m: map<Word64, Metadata>): multiset<Metadata>
    decreases |m|
  {
    if m == map[] then multiset{}
    else
      var k :| k in m;
      multiset{m[k]} + ValuesOf(m - {k})
  }

  lemma ValuesOfOne(m: map<Word64, Metadata>) returns (c: Word64)
    requires m != map[]
    ensures c in m && ValuesOf(m) == multiset{m[c]} + ValuesOf(m - {c})
  {
    c :| c in m && ValuesOf(m) == multiset{m[c]} + ValuesOf(m - {c});
  }

  /** Whichever key is taken first. */
  lemma {:induction false} ValuesOfAny(m: map<Word64, Metadata>, k: Word64)
    requires k in m
    ensures ValuesOf(m) == multiset{m[k]} + ValuesOf(m - {k})
    decreases |m|
  {
    hide ValuesOf;
    var c := ValuesOfOne(m);
    if c != k {
      var others := m - {c} - {k};
      assert others == m - {k} - {c};
      Fewer(m, c);
      Fewer(m, k);
      ValuesOfAny(m - {c}, k);
      ValuesOfAny(m - {k}, c);
      assert ValuesOf(m) == multiset{m[c]} + (multiset{m[k]} + ValuesOf(others));
      assert ValuesOf(m - {k}) == multiset{m[c]} + ValuesOf(others);
    }
  }

  lemma Fewer<V>(m: map<Word64, V>, k: Word64)
    requires k in m
    ensures |m - {k}| < |m|
  {
    assert (m - {k}).Keys == m.Keys - {k};
  }

  function KeysWith(m: map<Word64, Metadata>, v: Metadata): set<Word64> {
    set k | k in m && m[k] == v
  }

  /** The multiset has each value as often as there are keys with it. */
  lemma {:induction false} ValuesCounted(m: map<Word64, Metadata>, v: Metadata)
    ensures ValuesOf(m)[v] == |KeysWith(m, v)|
    decreases |m|
  {
    hide ValuesOf;
    if m == map[] {
      NoValues();
      assert KeysWith(m, v) == {};
    } else {
      var c := ValuesOfOne(m);
      Fewer(m, c);
      ValuesCounted(m - {c}, v);
      assert KeysWith(m - {c}, v) == KeysWith(m, v) - {c};
    }
  }

  lemma NoValues()
    ensures ValuesOf(map[]) == multiset{}
  {
  }

  /** The process whose bitmaps are tracked. */
  datatype Task = Task(uid: int)

  /** try_into from u32 to i32. */
  predicate FitsI32(x: Word32) { x < 0x8000_0000 }

  predicate Accepted(task: Task, e: Record) {
    && (e.kind == ALLOCATED ==> FitsI32(e.width) && FitsI32(e.height) && FitsI32(e.pixelStorage))
    && (e.kind == ACTIVITY ==> BytesAsStr(e.activity).Some?)
  }

  /** on_item. */
  ghost function OnRecord(task: Task, h: Handler, e: Record): Handler
    requires Accepted(task, e)
  {
    if e.kind == ALLOCATED then
      var bitmaps := h.bitmaps[e.ptr := Metadata(task.uid, e.width, e.height, e.pixelStorage, h.activity)];
      var current := h.current + e.size;
      if current > h.max then h.(bitmaps := bitmaps, current := current, max := current, snapshot := ValuesOf(bitmaps))
      else h.(bitmaps := bitmaps, current := current)
    else if e.kind == FREED then h.(bitmaps := h.bitmaps - {e.ptr}, current := h.current - e.size)
    else if e.kind == ACTIVITY then h.(activity := BytesAsStr(e.activity).value)
    else h
  }

  predicate AllAccepted(task: Task, es: seq<Record>) {
    forall i :: 0 <= i < |es| ==> Accepted(task, es[i])
  }

  ghost function After(task: Task, es: seq<Record>): Handler
    requires AllAccepted(task, es)
  {
    if es == [] then START else OnRecord(task, After(task, es[..|es| - 1]), es[|es| - 1])
  }

  class BitmapAllocationHandlerV1 {
    const task: Task
    var bitmaps: map<Word64, Metadata>
    var maxTotalBitmapSize: int
    var currentTotalBitmapSize: int
    var bitmapSnapshotAtMaxSize: seq<Metadata>
    var activityName: seq<byte>
    ghost var seen: seq<Record>

    ghost predicate Valid()
      reads this
    {
      && AllAccepted(task, seen)
      && After(task, seen) ==
           Handler(bitmaps, currentTotalBitmapSize, maxTotalBitmapSize, multiset(bitmapSnapshotAtMaxSize), activityName)
    }

    constructor (task: Task)
      ensures Valid() && seen == [] && this.task == task
    {
      this.task := task;
      bitmaps, maxTotalBitmapSize, currentTotalBitmapSize := map[], 0, 0;
      bitmapSnapshotAtMaxSize, activityName, seen := [], [], [];
    }

    /** bitmaps.values().cloned().collect(): in any order. */
    method CollectValues() returns (values: seq<Metadata>)
      ensures multiset(values) == ValuesOf(bitmaps)
    {
      values := [];
      var left := bitmaps;
      while left != map[]
        invariant multiset(values) + ValuesOf(left) == ValuesOf(bitmaps)
        decreases |left|
      {
        var k :| k in left;
        ValuesOfAny(left, k);
        values := values + [left[k]];
        left := left - {k};
      }
    }

    method OnItem(e: Record) returns (ok: bool)
      requires Valid()
      modifies this
      ensures Valid()
      ensures ok <==>
        && (e.kind == 0 ==> e.width < 0x8000_0000 && e.height < 0x8000_0000 && e.pixelStorage < 0x8000_0000)
        && (e.kind == 2 ==> BytesAsStr(e.activity) != None)
      ensures seen == if ok then old(seen) + [e] else old(seen)
    {
      hide After, AllAccepted, ValuesOf, BytesAsStr;
      if !Accepted(task, e) {
        return false;
      }
      if e.kind == ALLOCATED {
        bitmaps := bitmaps[e.ptr := Metadata(task.uid, e.width, e.height, e.pixelStorage, activityName)];
        currentTotalBitmapSize := currentTotalBitmapSize + e.size;
        if currentTotalBitmapSize > maxTotalBitmapSize {
          maxTotalBitmapSize := currentTotalBitmapSize;
          bitmapSnapshotAtMaxSize := CollectValues();
        }
      } else if e.kind == FREED {
        bitmaps := bitmaps - {e.ptr};
        currentTotalBitmapSize := currentTotalBitmapSize - e.size;
      } else if e.kind == ACTIVITY {
        activityName := BytesAsStr(e.activity).value;
      }
      AcceptedStep(task, seen, e);
      seen := seen + [e];
      ok := true;
    }
  }

  lemma AcceptedStep(task: Task, es: seq<Record>, e: Record)
    requires AllAccepted(task, es) && Accepted(task, e)
    ensures AllAccepted(task, es + [e]) && After(task, es + [e]) == OnRecord(task, After(task, es), e)
  {
    assert (es + [e])[..|es|] == es;
  }

  // ---- what the handler has found out ----

  /** The name in the last activity record, or the empty name. */
  function LatestActivity(task: Task, es: seq<Record>): seq<byte> {
    if es == [] then []
    else
      var e := es[|es| - 1];
      if e.kind == ACTIVITY && BytesAsStr(e.activity).Some? then BytesAsStr(e.activity).value
      else LatestActivity(task, es[..|es| - 1])
  }

  /** It is the string in the last activity record there is, or empty if there is none. */
  lemma {:induction false} LatestActivityExactly(task: Task, es: seq<Record>, i: int)
    requires AllAccepted(task, es) && -1 <= i < |es|
    requires (i >= 0 ==> es[i].kind == 2) && forall j :: i < j < |es| ==> es[j].kind != 2
    ensures if i < 0 then LatestActivity(task, es) == []
      else BytesAsStr(es[i].activity) == Some(LatestActivity(task, es))
  {
    hide BytesAsStr;
    if i < |es| - 1 {
      LatestActivityExactly(task, es[..|es| - 1], i);
    }
  }

  /** Record i allocates ptr, and no later one allocates or frees it. */
  predicate AllocatedLast(es: seq<Record>, ptr: Word64, i: nat) {
    && i < |es| && es[i].kind == 0 && es[i].ptr == ptr
    && forall j :: i < j < |es| && es[j].ptr == ptr ==> es[j].kind != 0 && es[j].kind != 1
  }

  /** The map has exactly the pointers that were allocated last, each with what that record said and
      the activity name latest at that time. */
  ghost predicate IsLiveMap(task: Task, es: seq<Record>, m: map<Word64, Metadata>) {
    && (forall ptr :: ptr in m ==> exists i: nat :: AllocatedLast(es, ptr, i))
    && (forall ptr, i: nat :: AllocatedLast(es, ptr, i) ==> ptr in m && IsEntry(task, es, i, m[ptr]))
  }

  predicate IsEntry(task: Task, es: seq<Record>, i: nat, m: Metadata)
    requires i < |es|
  {
    && m.uid == task.uid && m.width == es[i].width && m.height == es[i].height
    && m.pixelStorage == es[i].pixelStorage && m.activity == LatestActivity(task, es[..i])
  }

  lemma LiveIsAllocatedLast(es: seq<Record>, ptr: Word64)
    ensures Live(es, ptr) ==> AllocatedLast(es, ptr, LastAbout(es, ptr))
    ensures forall i: nat :: AllocatedLast(es, ptr, i) ==> Live(es, ptr) && i == LastAbout(es, ptr)
  {
    forall i: nat | AllocatedLast(es, ptr, i) ensures i == LastAbout(es, ptr) {
      assert About(es[i], ptr);
    }
  }

  /** The handler's map holds exactly the live bitmaps, and its name is the latest activity. */
  lemma MapIsLive(task: Task, es: seq<Record>)
    requires AllAccepted(task, es)
    ensures IsLiveMap(task, es, After(task, es).bitmaps)
    ensures After(task, es).activity == LatestActivity(task, es)
  {
    hide After, AllAccepted, AllocatedLast, LatestActivity, Live, IsEntry, LastAbout;
    MapByLast(task, es, 0);
    var m := After(task, es).bitmaps;
    forall ptr | ptr in m ensures exists i: nat :: AllocatedLast(es, ptr, i) {
      MapByLast(task, es, ptr);
      LiveIsAllocatedLast(es, ptr);
    }
    forall ptr, i: nat | AllocatedLast(es, ptr, i) ensures i < |es| && ptr in m && IsEntry(task, es, i, m[ptr]) {
      LiveIsAllocatedLast(es, ptr);
      MapByLast(task, es, ptr);
    }
  }

  lemma {:induction false} MapByLast(task: Task, es: seq<Record>, ptr: Word64)
    requires AllAccepted(task, es)
    ensures ptr in After(task, es).bitmaps <==> Live(es, ptr)
    ensures Live(es, ptr) ==>
      LastAbout(es, ptr) >= 0 && IsEntry(task, es, LastAbout(es, ptr), After(task, es).bitmaps[ptr])
    ensures After(task, es).activity == LatestActivity(task, es)
  {
    hide BytesAsStr, ValuesOf;
    if es != [] {
      var before, e := es[..|es| - 1], es[|es| - 1];
      MapByLast(task, before, ptr);
      assert es == before + [e];
      LastAboutStep(before, e, ptr);
      var i := LastAbout(before, ptr);
      if i >= 0 {
        assert es[..i] == before[..i];
      }
    }
  }

  /** Kernel and user space agree on what is live: nothing active is unknown to the handler, and
      if nothing was lost nothing else is known. */
  lemma KernelUserAgreement(task: Task, ps: seq<Probe>)
    requires AllAccepted(task, RunProbes(ps).output)
    ensures RunProbes(ps).active <= After(task, RunProbes(ps).output).bitmaps.Keys
    ensures NothingLost(ps) ==> RunProbes(ps).active == After(task, RunProbes(ps).output).bitmaps.Keys
  {
    var k := RunProbes(ps);
    ActiveIsLive(ps);
    forall ptr ensures ptr in After(task, k.output).bitmaps <==> Live(k.output, ptr) {
      MapByLast(task, k.output, ptr);
    }
    if NothingLost(ps) {
      forall ptr ensures ptr in k.active <==> Live(k.output, ptr) {
        LiveIsActive(ps, ptr);
      }
    }
  }

  function Total(es: seq<Record>): int {
    if es == [] then 0
    else
      var e := es[|es| - 1];
      var before := Total(es[..|es| - 1]);
      if e.kind == ALLOCATED then before + e.size as int
      else if e.kind == FREED then before - e.size as int
      else before
  }

  /** The shortest prefix with the highest total. */
  ghost predicate EarliestPeak(es: seq<Record>, at: nat) {
    && at <= |es|
    && (forall i :: 0 <= i <= |es| ==> TotalAt(es, i) <= TotalAt(es, at))
    && (forall i :: 0 <= i < at ==> TotalAt(es, i) < TotalAt(es, at))
  }

  /** The running total after the first i records. */
  function TotalAt(es: seq<Record>, i: nat): int
    requires i <= |es|
  {
    Total(es[..i])
  }

  lemma EarliestPeakStep(es: seq<Record>, e: Record, at: nat)
    requires EarliestPeak(es, at)
    ensures EarliestPeak(es + [e], if Total(es + [e]) > TotalAt(es, at) then |es| + 1 else at)
  {
    hide Total;
    var es' := es + [e];
    assert TotalAt(es', |es| + 1) == Total(es') by {
      assert es'[..|es| + 1] == es';
    }
    forall i: nat | i <= |es| ensures TotalAt(es', i) == TotalAt(es, i) {
      assert es'[..i] == es[..i];
    }
  }

  lemma EarliestPeakUnique(es: seq<Record>, at: nat, at': nat)
    requires EarliestPeak(es, at) && EarliestPeak(es, at')
    ensures at == at'
  {
    hide Total, TotalAt;
    assert TotalAt(es, at) <= TotalAt(es, at') && TotalAt(es, at') <= TotalAt(es, at);
  }

  /** The high-water mark: the running total is what was allocated less what was freed by the sizes
      the records carry, the maximum is the highest total of any prefix, and the snapshot is the
      live bitmaps right after the record that first reached it. */
  lemma {:induction false} HighWater(task: Task, es: seq<Record>) returns (at: nat)
    requires AllAccepted(task, es)
    ensures EarliestPeak(es, at) && AllAccepted(task, es[..at])
    ensures var h := After(task, es);
      h.current == Total(es) && h.max == TotalAt(es, at) && h.snapshot == ValuesOf(After(task, es[..at]).bitmaps)
  {
    if es == [] {
      at := 0;
      assert es[..0] == [];
    } else {
      var before, e := es[..|es| - 1], es[|es| - 1];
      hide ValuesOf, BytesAsStr, Total;
      var peak := HighWater(task, before);
      TotalStep(before, e);
      assert es == before + [e];
      assert before[..|before|] == before && TotalAt(before, |before|) <= TotalAt(before, peak);
      EarliestPeakStep(before, e, peak);
      assert before[..peak] == es[..peak];
      at := if Total(es) > TotalAt(before, peak) then |es| else peak;
      assert es[..|es|] == es;
    }
  }

  /** The same for every prefix that is an earliest peak: there is only one. */
  lemma HighWaterMark(task: Task, es: seq<Record>, at: nat)
    requires AllAccepted(task, es) && EarliestPeak(es, at)
    ensures AllAccepted(task, es[..at])
    ensures var h := After(task, es);
      && h.current == Total(es) <= h.max == TotalAt(es, at)
      && h.max >= 0
      && var live := After(task, es[..at]).bitmaps;
      && IsLiveMap(task, es[..at], live)
      && forall v :: h.snapshot[v] == |KeysWith(live, v)|
  {
    hide After, ValuesOf, IsLiveMap, AllAccepted;
    MarkIs(task, es, at);
    MapIsLive(task, es[..at]);
    var live := After(task, es[..at]).bitmaps;
    forall v ensures After(task, es).snapshot[v] == |KeysWith(live, v)| {
      ValuesCounted(live, v);
    }
  }

  lemma MarkIs(task: Task, es: seq<Record>, at: nat)
    requires AllAccepted(task, es) && EarliestPeak(es, at)
    ensures AllAccepted(task, es[..at])
    ensures var h := After(task, es);
      && h.current == Total(es) <= h.max == TotalAt(es, at)
      && h.max >= 0
      && h.snapshot == ValuesOf(After(task, es[..at]).bitmaps)
  {
    var found := HighWater(task, es);
    EarliestPeakUnique(es, at, found);
    assert es[..|es|] == es && TotalAt(es, |es|) <= TotalAt(es, at) && TotalAt(es, 0) == 0;
  }

  /** With fewer than 2^31 records no total leaves the range of an i64. */
  lemma {:induction false} NoOverflow(es: seq<Record>)
    requires |es| < 0x8000_0000
    ensures -(|es| * 0xFFFF_FFFF) <= Total(es) <= |es| * 0xFFFF_FFFF
    ensures -0x8000_0000_0000_0000 <= Total(es) < 0x8000_0000_0000_0000
  {
    if es != [] {
      NoOverflow(es[..|es| - 1]);
    }
  }

  // ---- when the running total is the size of what is live ----

  /** The size its last allocation record gave, for every live bitmap. */
  function Sizes(es: seq<Record>): map<Word64, Word32> {
    if es == [] then map[]
    else
      var m, e := Sizes(es[..|es| - 1]), es[|es| - 1];
      if e.kind == ALLOCATED then m[e.ptr := e.size] else if e.kind == FREED then m - {e.ptr} else m
  }

  function SizeIn(m: map<Word64, Word32>, ptr: Word64): Word32 {
    if ptr in m then m[ptr] else 0
  }

  ghost function Sum(m: map<Word64, Word32>): nat
    decreases |m|
  {
    if m == map[] then 0
    else
      var k :| k in m;
      Fewer(m, k);
      m[k] as int + Sum(m - {k})
  }

  lemma SumOfOne(m: map<Word64, Word32>) returns (c: Word64)
    requires m != map[]
    ensures c in m && Sum(m) == m[c] as int + Sum(m - {c})
  {
    c :| c in m && Sum(m) == m[c] as int + Sum(m - {c});
  }

  lemma {:induction false} SumWithout(m: map<Word64, Word32>, k: Word64)
    ensures Sum(m) == SizeIn(m, k) as int + Sum(m - {k})
    decreases |m|
  {
    hide Sum;
    if k !in m {
      assert m - {k} == m;
    } else {
      var c := SumOfOne(m);
      if c != k {
        assert m - {c} - {k} == m - {k} - {c};
        Fewer(m, c);
        Fewer(m, k);
        SumWithout(m - {c}, k);
        SumWithout(m - {k}, c);
      }
    }
  }

  lemma SumUpdate(m: map<Word64, Word32>, k: Word64, size: Word32)
    ensures Sum(m[k := size]) == Sum(m) - SizeIn(m, k) as int + size as int
  {
    hide Sum;
    SumWithout(m, k);
    SumWithout(m[k := size], k);
    assert m[k := size] - {k} == m - {k};
  }

  lemma {:induction false} SizesOfLive(es: seq<Record>, ptr: Word64)
    ensures ptr in Sizes(es) <==> Live(es, ptr)
    ensures Live(es, ptr) ==> Sizes(es)[ptr] == es[LastAbout(es, ptr)].size
  {
    if es != [] {
      SizesOfLive(es[..|es| - 1], ptr);
      LastAboutStep(es[..|es| - 1], es[|es| - 1], ptr);
      assert es == es[..|es| - 1] + [es[|es| - 1]];
    }
  }

  /** A record that keeps the books: an allocation of a pointer for which nothing is counted, or a
      free that carries what is counted for its pointer. */
  predicate Faithful(es: seq<Record>, e: Record) {
    && (e.kind == ALLOCATED ==> SizeIn(Sizes(es), e.ptr) == 0)
    && (e.kind == FREED ==> SizeIn(Sizes(es), e.ptr) == e.size)
  }

  lemma BooksStep(es: seq<Record>, e: Record)
    requires Total(es) == Sum(Sizes(es))
    ensures Total(es + [e]) == Sum(Sizes(es + [e])) <==> Faithful(es, e)
  {
    hide Sum;
    assert (es + [e])[..|es|] == es;
    SumWithout(Sizes(es), e.ptr);
    SumUpdate(Sizes(es), e.ptr, e.size);
  }

  /** The running total is the size of the live bitmaps throughout exactly if every record is
      faithful. The free probe never sets the size, so that is up to what the ring held. */
  lemma {:induction false} TotalIsLiveSize(es: seq<Record>)
    ensures (forall i: nat :: i <= |es| ==> TotalAt(es, i) == Sum(Sizes(es[..i])))
       <==> (forall i: nat :: i < |es| ==> Faithful(es[..i], es[i]))
  {
    hide Sum, Sizes, Total, Faithful;
    if forall i: nat :: i < |es| ==> Faithful(es[..i], es[i]) {
      FaithfulBooks(es, |es|);
      forall i: nat | i <= |es| ensures TotalAt(es, i) == Sum(Sizes(es[..i])) {
        FaithfulBooks(es, i);
      }
    }
    if forall i: nat :: i <= |es| ==> TotalAt(es, i) == Sum(Sizes(es[..i])) {
      forall i: nat | i < |es| ensures Faithful(es[..i], es[i]) {
        assert TotalAt(es, i) == Sum(Sizes(es[..i])) && TotalAt(es, i + 1) == Sum(Sizes(es[..i + 1]));
        assert es[..i + 1] == es[..i] + [es[i]];
        BooksStep(es[..i], es[i]);
      }
    }
  }

  lemma {:induction false} FaithfulBooks(es: seq<Record>, n: nat)
    requires n <= |es| && forall i: nat :: i < |es| ==> Faithful(es[..i], es[i])
    ensures TotalAt(es, n) == Sum(Sizes(es[..n]))
  {
    if n > 0 {
      FaithfulBooks(es, n - 1);
      assert es[..n] == es[..n - 1] + [es[n - 1]];
      BooksStep(es[..n - 1], es[n - 1]);
    }
  }

  /** If every free record carries size 0, as on the first lap of a zeroed ring, the total never
      falls, whatever is freed, and is always its own maximum. */
  lemma {:induction false} ZeroSizedFrees(task: Task, es: seq<Record>)
    requires AllAccepted(task, es) && forall i :: 0 <= i < |es| && es[i].kind == FREED ==> es[i].size == 0
    ensures After(task, es).current == After(task, es).max == Total(es)
    ensures forall i: nat :: i <= |es| ==> 0 <= TotalAt(es, i) <= Total(es)
  {
    hide BytesAsStr, ValuesOf;
    assert es[..|es|] == es;
    if es != [] {
      var before := es[..|es| - 1];
      ZeroSizedFrees(task, before);
      assert before[..|before|] == before && 0 <= TotalAt(before, |before|);
      forall i: nat | i <= |es| ensures 0 <= TotalAt(es, i) <= Total(es) {
        if i < |es| {
          assert before[..i] == es[..i] && TotalAt(before, i) == TotalAt(es, i);
        }
      }
    }
  }

  /** Two probe firings on one bitmap that leave nothing live and a total that is not zero. */
  lemma StaleSizeDrifts(r: Record, stale: Record)
    requires stale.size != r.size
    ensures var es := RunProbes([Creation(r, true, true), Free(r.ptr, stale, true)]).output;
      !Live(es, r.ptr) && Total(es) == r.size - stale.size != 0
  {
    hide RunProbes, Total, Live, LastAbout;
    var a, b := r.(kind := ALLOCATED), stale.(kind := FREED, ptr := r.ptr);
    AllocatedAndFreed(r, stale);
    TotalOfTwo(a, b);
    LastAboutStep([a], b, r.ptr);
    assert [a] + [b] == [a, b];
  }

  lemma RunProbesStep(ps: seq<Probe>, p: Probe)
    ensures RunProbes(ps + [p]) ==
      Kernel(Active(RunProbes(ps).active, p), RunProbes(ps).output + Emitted(RunProbes(ps).active, p))
  {
    assert (ps + [p])[..|ps|] == ps;
  }

  lemma AllocatedAndFreed(r: Record, stale: Record)
    ensures RunProbes([Creation(r, true, true), Free(r.ptr, stale, true)]).output
      == [r.(kind := ALLOCATED), stale.(kind := FREED, ptr := r.ptr)]
  {
    var c, f := Creation(r, true, true), Free(r.ptr, stale, true);
    RunProbesStep([], c);
    RunProbesStep([c], f);
    assert [] + [c] == [c] && [c] + [f] == [c, f];
  }

  lemma TotalStep(es: seq<Record>, e: Record)
    ensures Total(es + [e]) ==
      Total(es) + (if e.kind == ALLOCATED then e.size as int else if e.kind == FREED then -(e.size as int) else 0)
  {
    assert (es + [e])[..|es|] == es;
  }

  lemma TotalOfTwo(a: Record, b: Record)
    requires a.kind == ALLOCATED && b.kind == FREED
    ensures Total([a, b]) == a.size as int - b.size as int
  {
    TotalStep([], a);
    TotalStep([a], b);
    assert [] + [a] == [a] && [a] + [b] == [a, b];
  }
}
