/** bpfLock: descriptors of bpf maps locked so that one process at a time has a map to itself.

    All maps share one anonymous inode, on which the byte at the offset of a map's id stands for the
    map.  A lock belongs to the open file description and goes when it is closed. */
module LockTable {
  datatype Lock = Unlocked | Shared | Exclusive

  datatype Mode = ExclusiveRW | RW | WO | RO

  /** What asking for a map's id says: the id, EINVAL on kernels that have none, or another error. */
  datatype Ids = Known | Unsupported | Broken

  /** An open descriptor of a map: how it was retrieved, and the lock on the map's byte. */
  datatype Desc = Desc(id: nat, mode: Mode, ids: Ids, lock: Lock)

  datatype Table = Table(pins: map<string, nat>, open: map<int, Desc>, next: nat)

  /** F_WRLCK for exclusive and for write-only descriptors, F_RDLCK for shared ones. */
  function LockType(mode: Mode): Lock {
    match mode
    case ExclusiveRW => Exclusive
    case WO => Exclusive
    case RW => Shared
    case RO => Unlocked
  }

  predicate Conflict(a: Lock, b: Lock) { a != Unlocked && b != Unlocked && (a == Exclusive || b == Exclusive) }

  /** Another descriptor holds a lock on the byte that the wanted one conflicts with. */
  ghost predicate Refused(open: map<int, Desc>, fd: int, id: nat, want: Lock) {
    exists other :: other in open && other != fd && open[other].id == id && Conflict(open[other].lock, want)
  }

  datatype Exit = Fd(fd: int) | Aborted

  /** One call: errno is that of BPF_OBJ_GET, lockErr one of fcntl that has nothing to do with
      other locks. */
  datatype Event =
    | Retrieve(path: string, mode: Mode, ids: Ids, errno: nat, lockErr: bool)
    | Close(fd: int)

  ghost function Step(t: Table, e: Event): (Table, Exit) {
    match e
    case Close(fd) => (t.(open := t.open - {fd}), Fd(-1))
    case Retrieve(path, mode, ids, errno, lockErr) =>
      if path !in t.pins || errno != 0 then (t, Fd(-1))
      else
        var id, fd := t.pins[path], t.next;
        var after := t.(next := fd + 1);
        if mode == RO || ids == Unsupported then
          (after.(open := t.open[fd := Desc(id, mode, ids, Unlocked)]), Fd(fd))
        else if ids == Broken then (after.(open := t.open[fd := Desc(id, mode, ids, Unlocked)]), Aborted)
        else if lockErr || Refused(t.open, fd, id, LockType(mode)) then (after, Fd(-1))
        else (after.(open := t.open[fd := Desc(id, mode, ids, LockType(mode))]), Fd(fd))
  }

  ghost function Run(t: Table, es: seq<Event>): Table {
    if es == [] then t else Step(Run(t, es[..|es| - 1]), es[|es| - 1]).0
  }

  /** Locks of different descriptors on one byte never conflict, and where ids are known every
      descriptor holds the lock its retrieval asks for, and elsewhere none. */
  ghost predicate Ok(t: Table) {
    && (forall fd :: fd in t.open ==> 0 <= fd < t.next)
    && (forall fd :: fd in t.open ==>
          t.open[fd].lock == if t.open[fd].ids == Known then LockType(t.open[fd].mode) else Unlocked)
    && (forall a, b :: a in t.open && b in t.open && a != b && t.open[a].id == t.open[b].id ==>
          !Conflict(t.open[a].lock, t.open[b].lock))
  }

  // ---- the code ----

  class Locks {
    var pins: map<string, nat>
    var open: map<int, Desc>
    var next: nat

    function State(): Table
      reads this
    {
      Table(pins, open, next)
    }

    constructor (pins: map<string, nat>)
      ensures State() == Table(pins, map[], 0)
    {
      this.pins, open, next := pins, map[], 0;
    }

    method BpfFdGet(path: string, mode: Mode, ids: Ids, errno: nat) returns (fd: int)
      modifies this`open, this`next
      ensures path !in pins || errno != 0 ==> fd == -1 && State() == old(State())
      ensures path in pins && errno == 0 ==>
        fd == old(next) && next == old(next) + 1 && open == old(open)[fd := Desc(pins[path], mode, ids, Unlocked)]
    {
      if path !in pins || errno != 0 {
        return -1;
      }
      fd, next := next, next + 1;
      open := open[fd := Desc(pins[path], mode, ids, Unlocked)];
    }

    /** fcntl(F_OFD_SETLK): refused while another descriptor's lock conflicts. */
    method SetLock(fd: int, want: Lock, lockErr: bool) returns (ret: int)
      requires fd in open && want != Unlocked
      modifies this`open
      ensures ret == if lockErr || Refused(old(open), fd, old(open)[fd].id, want) then -1 else 0
      ensures open == if ret == 0 then old(open)[fd := old(open)[fd].(lock := want)] else old(open)
    {
      if lockErr {
        return -1;
      }
      var left := open.Keys;
      while left != {}
        invariant left <= open.Keys
        invariant forall other :: other in open.Keys - left ==>
          !(other != fd && open[other].id == open[fd].id && Conflict(open[other].lock, want))
        decreases |left|
      {
        var other :| other in left;
        if other != fd && open[other].id == open[fd].id && Conflict(open[other].lock, want) {
          return -1;
        }
        left := left - {other};
      }
      open := open[fd := open[fd].(lock := want)];
      ret := 0;
    }

    method CloseFd(fd: int)
      modifies this`open
      ensures open == old(open) - {fd}
    {
      open := open - {fd};
    }

    method BpfLock(fd: int, want: Lock, lockErr: bool) returns (r: Exit)
      requires fd < 0 || fd in open
      requires want != Unlocked
      modifies this`open
      ensures fd < 0 ==> r == Fd(fd) && open == old(open)
      ensures fd >= 0 ==>
        var d := old(open)[fd];
        match d.ids
        case Unsupported => r == Fd(fd) && open == old(open)
        case Broken => r == Aborted && open == old(open)
        case Known =>
          if lockErr || Refused(old(open), fd, d.id, want) then r == Fd(-1) && open == old(open) - {fd}
          else r == Fd(fd) && open == old(open)[fd := d.(lock := want)]
    {
      if fd < 0 {
        return Fd(fd);
      }
      if open[fd].ids == Unsupported {
        return Fd(fd);
      }
      if open[fd].ids == Broken {
        return Aborted;
      }
      var ret := SetLock(fd, want, lockErr);
      if ret == 0 {
        return Fd(fd);
      }
      CloseFd(fd);
      r := Fd(ret);
    }

    /** mapRetrieveExclusiveRW, mapRetrieveRW, mapRetrieveWO and mapRetrieveRO. */
    method MapRetrieve(path: string, mode: Mode, ids: Ids, errno: nat, lockErr: bool) returns (r: Exit)
      requires Ok(State())
      modifies this`open, this`next
      ensures (State(), r) == Step(old(State()), Retrieve(path, mode, ids, errno, lockErr))
    {
      var fd := BpfFdGet(path, mode, ids, errno);
      if mode == RO {
        return Fd(fd);
      }
      ghost var after := open;
      r := BpfLock(fd, LockType(mode), lockErr);
      if fd >= 0 {
        assert after - {fd} == old(open);
        ghost var locked := after[fd].(lock := LockType(mode));
        assert after[fd := locked] == old(open)[fd := locked];
        SameRefusal(old(open), after, fd, after[fd].id, LockType(mode));
      }
    }
  }

  lemma SameRefusal(before: map<int, Desc>, after: map<int, Desc>, fd: int, id: nat, want: Lock)
    requires fd !in before && fd in after && after == before[fd := after[fd]]
    ensures Refused(before, fd, id, want) <==> Refused(after, fd, id, want)
  {
    if Refused(after, fd, id, want) {
      var other :| other in after && other != fd && after[other].id == id && Conflict(after[other].lock, want);
      assert other in before && before[other] == after[other];
    }
    if Refused(before, fd, id, want) {
      var other :| other in before && other != fd && before[other].id == id && Conflict(before[other].lock, want);
      assert other in after && after[other] == before[other];
    }
  }

  // ---- one holder per map ----

  lemma StepOk(t: Table, e: Event)
    requires Ok(t)
    ensures Ok(Step(t, e).0)
  {
  }

  lemma {:induction false} RunOk(t: Table, es: seq<Event>)
    requires Ok(t)
    ensures Ok(Run(t, es))
  {
    if es != [] {
      RunOk(t, es[..|es| - 1]);
      StepOk(Run(t, es[..|es| - 1]), es[|es| - 1]);
    }
  }

  lemma {:induction false} PinsStay(t: Table, es: seq<Event>)
    ensures Run(t, es).pins == t.pins
  {
    if es != [] {
      PinsStay(t, es[..|es| - 1]);
    }
  }

  /** One of the map's open descriptors that were locked keeps the mode out: neither is read-only, and
      they are not both for shared use. */
  ghost predicate KeptOut(open: map<int, Desc>, id: nat, mode: Mode) {
    exists fd :: fd in open && open[fd].id == id && open[fd].ids == Known
      && open[fd].mode != RO && mode != RO && (open[fd].mode != RW || mode != RW)
  }

  /** One more descriptor is open. */
  predicate Opens(open: map<int, Desc>, open': map<int, Desc>, fd: int, id: nat, mode: Mode, ids: Ids) {
    && fd !in open && fd in open' && open' == open[fd := open'[fd]]
    && open'[fd].id == id && open'[fd].mode == mode && open'[fd].ids == ids
  }

  /** After any calls a retrieval gives a new descriptor of the pinned map exactly if it can be opened
      and is read-only, or there are no ids, or no descriptor keeps it out; it aborts exactly if the
      id cannot be read, and otherwise it fails and leaves the open descriptors as they were. */
  lemma GrantedExactly(pins: map<string, nat>, es: seq<Event>, path: string, mode: Mode, ids: Ids, errno: nat,
      lockErr: bool)
    ensures var t := Run(Table(pins, map[], 0), es);
      var (t', r) := Step(t, Retrieve(path, mode, ids, errno, lockErr));
      var granted := path in pins && errno == 0 &&
        (mode == RO || ids == Unsupported || (ids == Known && !lockErr && !KeptOut(t.open, pins[path], mode)));
      && (granted <==> r == Fd(t.next))
      && (r == Aborted <==> path in pins && errno == 0 && mode != RO && ids == Broken)
      && (granted ==> Opens(t.open, t'.open, t.next, pins[path], mode, ids))
      && (!granted && r != Aborted ==> r == Fd(-1) && t'.open == t.open)
  {
    hide Run;
    var t := Run(Table(pins, map[], 0), es);
    NoneOpen(pins);
    RunOk(Table(pins, map[], 0), es);
    PinsStay(Table(pins, map[], 0), es);
    if path in pins && ids == Known && mode != RO {
      RefusedIsKeptOut(t, pins[path], mode);
    }
    var (t', r) := Step(t, Retrieve(path, mode, ids, errno, lockErr));
    if r == Fd(t.next) {
      assert t'.open == t.open[t.next := t'.open[t.next]];
    }
  }

  lemma NoneOpen(pins: map<string, nat>)
    ensures Ok(Table(pins, map[], 0))
  {
  }

  lemma RefusedIsKeptOut(t: Table, id: nat, mode: Mode)
    requires Ok(t) && mode != RO
    ensures Refused(t.open, t.next, id, LockType(mode)) <==> KeptOut(t.open, id, mode)
  {
    if Refused(t.open, t.next, id, LockType(mode)) {
      var fd :| fd in t.open && fd != t.next && t.open[fd].id == id && Conflict(t.open[fd].lock, LockType(mode));
      assert t.open[fd].ids == Known;
    }
    if KeptOut(t.open, id, mode) {
      var fd :| fd in t.open && t.open[fd].id == id && t.open[fd].ids == Known
        && t.open[fd].mode != RO && (t.open[fd].mode != RW || mode != RW);
      assert fd != t.next && Conflict(t.open[fd].lock, LockType(mode));
    }
  }

  /** After any calls, on a kernel that knows map ids, a map with an exclusive descriptor has no other
      descriptor but lockless read-only ones: a ring has a single consumer. */
  lemma SingleHolder(pins: map<string, nat>, es: seq<Event>, a: int, b: int)
    requires var t := Run(Table(pins, map[], 0), es);
      && a in t.open && b in t.open && t.open[a].id == t.open[b].id
      && t.open[a].ids == Known && t.open[b].ids == Known
      && t.open[a].mode == ExclusiveRW && t.open[b].mode != RO
    ensures a == b
  {
    RunOk(Table(pins, map[], 0), es);
  }

  /** Without ids the same two calls leave two exclusive descriptors. */
  lemma NoIdsNoExclusion(path: string, id: nat)
    ensures var call := Retrieve(path, ExclusiveRW, Unsupported, 0, false);
      var t := Run(Table(map[path := id], map[], 0), [call, call]);
      && t.open.Keys == {0, 1} && t.open[0] == t.open[1] && t.open[0].mode == ExclusiveRW
  {
    var call := Retrieve(path, ExclusiveRW, Unsupported, 0, false);
    assert [call, call][..1] == [call] && [call][..0] == [];
    var d := Desc(id, ExclusiveRW, Unsupported, Unlocked);
    assert Run(Table(map[path := id], map[], 0), [call]) == Table(map[path := id], map[0 := d], 1);
    assert Run(Table(map[path := id], map[], 0), [call, call]).open == map[0 := d, 1 := d];
  }
}
