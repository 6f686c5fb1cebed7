/** The bpf objects of the kernel and the paths they are pinned at, as the loader's system calls see
    them.

    A path that is pinned keeps its object: the kernel refuses to pin over it, and nothing here
    unpins.  Descriptor numbers and object ids are handed out in order. */
module PinnedObjects {
  import opened ElfCode

  const EEXIST: nat := 17

  const TYPE_DEVMAP: nat := 14
  const TYPE_HASH: nat := 1
  const TYPE_DEVMAP_HASH: nat := 25
  const TYPE_RINGBUF: nat := 27
  const F_RDONLY_PROG: nat := 128

  datatype Attrs = Attrs(kind: nat, keySize: nat, valueSize: nat, maxEntries: nat, flags: nat)

  datatype Object = MapObject(attrs: Attrs) | ProgObject(kind: nat, name: string, insns: seq<Insn>)

  datatype World = World(
    pins: map<string, nat>, objects: map<nat, Object>, fds: map<int, nat>, nextId: nat, nextFd: nat)

  predicate Valid(w: World) {
    && (forall path :: path in w.pins ==> w.pins[path] in w.objects)
    && (forall fd :: fd in w.fds ==> 0 <= fd < w.nextFd && w.fds[fd] in w.objects)
    && (forall id :: id in w.objects ==> id < w.nextId)
  }

  /** Nothing that was there is gone or different. */
  predicate Grows(w: World, w': World) {
    && w.nextId <= w'.nextId && w.nextFd <= w'.nextFd
    && (forall path :: path in w.pins ==> path in w'.pins && w'.pins[path] == w.pins[path])
    && (forall id :: id in w.objects ==> id in w'.objects && w'.objects[id] == w.objects[id])
    && (forall fd :: fd in w.fds ==> fd in w'.fds && w'.fds[fd] == w.fds[fd])
  }

  lemma GrowsNot(w: World)
    ensures Grows(w, w)
  {
  }

  lemma GrowsTwice(a: World, b: World, c: World)
    requires Grows(a, b) && Grows(b, c)
    ensures Grows(a, c)
  {
  }

  /** The flag the kernel sets by itself on a map that programs may only read. */
  function KernelFlags(kind: nat, flags: nat): nat {
    if (kind == TYPE_DEVMAP || kind == TYPE_DEVMAP_HASH) && flags / F_RDONLY_PROG % 2 == 0 then flags + F_RDONLY_PROG
    else flags
  }

  // ---- system calls: an errno of 0 stands for success ----

  function Opened(w: World, id: nat): World {
    w.(fds := w.fds[w.nextFd := id], nextFd := w.nextFd + 1)
  }

  function Created(w: World, o: Object): World {
    Opened(w.(objects := w.objects[w.nextId := o], nextId := w.nextId + 1), w.nextId)
  }

  function Pinned(w: World, fd: int, path: string): World
    requires fd in w.fds && path !in w.pins
  {
    w.(pins := w.pins[path := w.fds[fd]])
  }

  lemma OpenedGrows(w: World, id: nat)
    requires Valid(w) && id in w.objects
    ensures Valid(Opened(w, id)) && Grows(w, Opened(w, id)) && Opened(w, id).fds[w.nextFd] == id
  {
  }

  lemma CreatedGrows(w: World, o: Object)
    requires Valid(w)
    ensures var w' := Created(w, o);
      && Valid(w') && Grows(w, w') && w.nextFd in w'.fds
      && w'.objects[w'.fds[w.nextFd]] == o && w'.pins == w.pins
  {
  }

  lemma PinnedGrows(w: World, fd: int, path: string)
    requires Valid(w) && fd in w.fds && path !in w.pins
    ensures Valid(Pinned(w, fd, path)) && Grows(w, Pinned(w, fd, path))
  {
  }

  class Kernel {
    var pins: map<string, nat>
    var objects: map<nat, Object>
    var fds: map<int, nat>
    var nextId: nat
    var nextFd: nat

    function State(): World
      reads this
    {
      World(pins, objects, fds, nextId, nextFd)
    }

    constructor ()
      ensures State() == World(map[], map[], map[], 1, 0)
    {
      pins, objects, fds, nextId, nextFd := map[], map[], map[], 1, 0;
    }

    /** BPF_OBJ_GET. */
    method ObjGet(path: string, errno: nat) returns (fd: int, err: nat)
      requires Valid(State()) && path in pins
      modifies this
      ensures errno != 0 ==> (fd, err) == (-1, errno) && State() == old(State())
      ensures errno == 0 ==> (fd, err) == (old(nextFd), 0) && State() == Opened(old(State()), old(pins)[path])
    {
      if errno != 0 {
        return -1, errno;
      }
      fd, err := nextFd, 0;
      fds, nextFd := fds[nextFd := pins[path]], nextFd + 1;
    }

    /** BPF_MAP_CREATE and BPF_PROG_LOAD. */
    method Create(o: Object, errno: nat) returns (fd: int, err: nat)
      modifies this
      ensures errno != 0 ==> (fd, err) == (-1, errno) && State() == old(State())
      ensures errno == 0 ==> (fd, err) == (old(nextFd), 0) && State() == Created(old(State()), o)
    {
      if errno != 0 {
        return -1, errno;
      }
      fd, err := nextFd, 0;
      objects, fds := objects[nextId := o], fds[nextFd := nextId];
      nextId, nextFd := nextId + 1, nextFd + 1;
    }

    /** BPF_OBJ_PIN. */
    method Pin(fd: int, path: string, errno: nat) returns (err: nat)
      requires fd in fds
      modifies this`pins
      ensures err == if errno != 0 then errno else if path in old(pins) then EEXIST else 0
      ensures State() == if err != 0 then old(State()) else Pinned(old(State()), fd, path)
    {
      err := if errno != 0 then errno else if path in pins then EEXIST else 0;
      if err == 0 {
        pins := pins[path := fds[fd]];
      }
    }
  }
}
