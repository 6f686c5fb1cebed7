/** createMaps: one descriptor for every map an object names, created and pinned, or found pinned. */
module MapLoader {
  import opened Options
  import opened ElfSymbols
  import opened ElfCode
  import opened PinnedObjects
  import W = Words

  const ENOTUNIQ: int := 76
  const KVER_5_4: nat := 0x0504_0000

  /** Where an object is loaded, and the kernel it is loaded into. */
  datatype Config = Config(prefix: string, objName: string, kvers: nat, pageSize: nat)

  /** The errno of each system call for one map. */
  datatype Faults = Faults(get: nat, create: nat, pin: nat, chmod: nat, chown: nat)

  const NO_FAULTS: Faults := Faults(0, 0, 0, 0, 0)

  datatype Exit = Returned(ret: int) | Aborted

  /** What one iteration leaves: the error to return, or 0 and the descriptor. */
  datatype Made = Made(w: World, err: int, fd: int)

  datatype Maps = Maps(w: World, exit: Exit, fds: seq<int>)

  function Minus(errno: nat): int { -(errno as int) }

  predicate InRange(cfg: Config, minKver: nat, maxKver: nat) { minKver <= cfg.kvers < maxKver }

  function MapType(cfg: Config, def: MapDef): nat {
    if def.kind == TYPE_DEVMAP_HASH && cfg.kvers < KVER_5_4 then TYPE_HASH else def.kind
  }

  function MaxEntries(cfg: Config, def: MapDef, kind: nat): nat {
    if kind == TYPE_RINGBUF && def.maxEntries < cfg.pageSize then cfg.pageSize else def.maxEntries
  }

  function Requested(cfg: Config, def: MapDef): Attrs {
    var kind := MapType(cfg, def);
    Attrs(kind, def.keySize, def.valueSize, MaxEntries(cfg, def, kind), def.flags)
  }

  /** What the kernel makes of a request. */
  function Stored(a: Attrs): Attrs { a.(flags := KernelFlags(a.kind, a.flags)) }

  /** What mapMatchesExpectations asks for. */
  function Expected(cfg: Config, def: MapDef): Attrs {
    var kind := MapType(cfg, def);
    Attrs(kind, def.keySize, def.valueSize, MaxEntries(cfg, def, kind), KernelFlags(kind, def.flags))
  }

  /** Maps shared between objects leave out the name of the object. */
  function MapPath(cfg: Config, name: string, def: MapDef): string {
    MapPrefix(cfg) + (if def.shared then "" else cfg.objName) + "_" + name
  }

  function MapPrefix(cfg: Config): string { "/sys/fs/bpf/" + cfg.prefix + "map_" }

  /** The attributes a definition asks for on a kernel: a hash where there is no DEVMAP_HASH yet, ring
      buffers of at least a page, and bit 7 of the flags set for maps that programs may only read. */
  predicate AskedFor(a: Attrs, cfg: Config, def: MapDef) {
    && a.kind == (if def.kind == 25 && cfg.kvers < 0x0504_0000 then 1 else def.kind)
    && a.keySize == def.keySize && a.valueSize == def.valueSize
    && a.maxEntries == (if a.kind == 27 && def.maxEntries < cfg.pageSize then cfg.pageSize else def.maxEntries)
    && a.flags / 256 == def.flags / 256 && a.flags % 128 == def.flags % 128
    && a.flags / 128 % 2 == (if a.kind == 14 || a.kind == 25 then 1 else def.flags / 128 % 2)
  }

  lemma ExpectedExactly(a: Attrs, cfg: Config, def: MapDef)
    ensures a == Expected(cfg, def) <==> AskedFor(a, cfg, def)
  {
    var kind := MapType(cfg, def);
    Bit7(a.flags, def.flags, if kind == 14 || kind == 25 then 1 else def.flags / 128 % 2);
  }

  /** Setting bit 7 or leaving it alone. */
  lemma Bit7(a: nat, b: nat, bit: nat)
    requires bit == 1 || bit == b / 128 % 2
    ensures a == (if bit == 1 && b / 128 % 2 == 0 then b + 128 else b) <==>
      a / 256 == b / 256 && a % 128 == b % 128 && a / 128 % 2 == bit
  {
    Split256(a);
    Split256(b);
    Join256(b / 256, 1, b % 128);
  }

  lemma Split256(a: nat)
    ensures a == a / 256 * 256 + a / 128 % 2 * 128 + a % 128
  {
    var h := a / 128;
    W.DivModUnique(a, 256, h / 2, h % 2 * 128 + a % 128);
  }

  lemma Join256(q: nat, t: nat, r: nat)
    requires t < 2 && r < 128
    ensures var a := q * 256 + t * 128 + r; a / 256 == q && a / 128 % 2 == t && a % 128 == r
  {
    var a := q * 256 + t * 128 + r;
    W.DivModUnique(a, 256, q, t * 128 + r);
    W.DivModUnique(a, 128, 2 * q + t, r);
  }

  // ---- which paths are one ----

  lemma SameEnds(a: string, b: string, common: string)
    ensures a + common == b + common <==> a == b
  {
    if a + common == b + common {
      assert |a| == |b|;
      assert a == (a + common)[..|a|] && b == (b + common)[..|b|];
    }
  }

  lemma SameStarts(common: string, a: string, b: string)
    ensures common + a == common + b <==> a == b
  {
    if common + a == common + b {
      assert a == (common + a)[|common|..] && b == (common + b)[|common|..];
    }
  }

  /** Under one prefix two paths are equal exactly if the objects' names, left out where a map is
      shared, followed by the maps' names are. */
  lemma PathsMeet(a: Config, nameA: string, defA: MapDef, b: Config, nameB: string, defB: MapDef)
    requires a.prefix == b.prefix
    ensures MapPath(a, nameA, defA) == MapPath(b, nameB, defB) <==>
      (if defA.shared then "" else a.objName) + "_" + nameA == (if defB.shared then "" else b.objName) + "_" + nameB
  {
    var ownA, ownB := (if defA.shared then "" else a.objName) + "_" + nameA,
      (if defB.shared then "" else b.objName) + "_" + nameB;
    assert MapPath(a, nameA, defA) == "/sys/fs/bpf/" + a.prefix + "map_" + ownA;
    assert MapPath(b, nameB, defB) == "/sys/fs/bpf/" + a.prefix + "map_" + ownB;
    SameStarts("/sys/fs/bpf/" + a.prefix + "map_", ownA, ownB);
  }

  /** A map of one name and definition in two objects has one path exactly if it is shared. */
  lemma OnePathIfShared(a: Config, b: Config, name: string, def: MapDef)
    requires a.prefix == b.prefix && a.objName != b.objName
    ensures MapPath(a, name, def) == MapPath(b, name, def) <==> def.shared
  {
    hide MapPath;
    PathsMeet(a, name, def, b, name, def);
    SameEnds(a.objName, b.objName, "_" + name);
    assert a.objName + "_" + name == a.objName + ("_" + name);
    assert b.objName + "_" + name == b.objName + ("_" + name);
  }

  lemma FirstUnderscore(own: string, name: string, at: nat)
    requires '_' !in own && at < |own + "_" + name| && (own + "_" + name)[at] == '_'
    requires forall k :: 0 <= k < at ==> (own + "_" + name)[k] != '_'
    ensures at == |own|
  {
    assert (own + "_" + name)[|own|] == '_';
    assert forall k :: 0 <= k < |own| ==> (own + "_" + name)[k] == own[k];
  }

  /** Objects without an underscore in their names have no private path in common, and none with a
      shared map, unless one of them has no name. */
  lemma PathsDiffer(a: Config, nameA: string, defA: MapDef, b: Config, nameB: string, defB: MapDef)
    requires a.prefix == b.prefix && '_' !in a.objName && '_' !in b.objName
    ensures MapPath(a, nameA, defA) == MapPath(b, nameB, defB) <==>
      nameA == nameB && (if defA.shared then "" else a.objName) == (if defB.shared then "" else b.objName)
  {
    hide MapPath;
    PathsMeet(a, nameA, defA, b, nameB, defB);
    var x, y := if defA.shared then "" else a.objName, if defB.shared then "" else b.objName;
    if x + "_" + nameA == y + "_" + nameB {
      FirstUnderscore(y, nameB, |x|);
      assert x == (x + "_" + nameA)[..|x|] && y == (y + "_" + nameB)[..|y|];
      SameStarts(x + "_", nameA, nameB);
    }
  }

  /** With one, two private maps of different names and objects can be pinned at one path. */
  lemma PathsCollide(a: Config, b: Config, def: MapDef)
    requires a.prefix == b.prefix && a.objName == "A_B" && b.objName == "A" && !def.shared
    ensures MapPath(a, "c", def) == MapPath(b, "B_c", def)
  {
    PathsMeet(a, "c", def, b, "B_c", def);
    assert "A_B" + "_" + "c" == "A" + "_" + "B_c";
  }

  // ---- specification ----

  function MakeMap(cfg: Config, w: World, name: string, def: MapDef, f: Faults): Made
    requires Valid(w)
  {
    var path := MapPath(cfg, name, def);
    if path in w.pins then
      if f.get != 0 then Made(w, Minus(f.get), -1)
      else if w.objects[w.pins[path]] != MapObject(Expected(cfg, def)) then Made(Opened(w, w.pins[path]), -ENOTUNIQ, -1)
      else Made(Opened(w, w.pins[path]), 0, w.nextFd)
    else if f.create != 0 then Made(w, Minus(f.create), -1)
    else
      var created := Created(w, MapObject(Stored(Requested(cfg, def))));
      if f.pin != 0 then Made(created, Minus(f.pin), -1)
      else
        var pinned := Pinned(created, w.nextFd, path);
        if f.chmod != 0 then Made(pinned, Minus(f.chmod), -1)
        else if f.chown != 0 then Made(pinned, Minus(f.chown), -1)
        else Made(pinned, 0, w.nextFd)
  }

  /** The iterations from map i on. */
  function MakeMaps(cfg: Config, names: seq<string>, defs: seq<MapDef>, faults: nat -> Faults, w: World, i: nat): Maps
    requires Valid(w) && i <= |names| <= |defs|
    decreases |names| - i
  {
    if i == |names| then Maps(w, Returned(0), [])
    else if defs[i].zero != 0 then Maps(w, Aborted, [])
    else if !InRange(cfg, defs[i].minKver, defs[i].maxKver) then
      Prepend([-1], MakeMaps(cfg, names, defs, faults, w, i + 1))
    else
      var made := MakeMap(cfg, w, names[i], defs[i], faults(i));
      MakeMapGrows(cfg, w, names[i], defs[i], faults(i));
      if made.err != 0 then Maps(made.w, Returned(made.err), [])
      else Prepend([made.fd], MakeMaps(cfg, names, defs, faults, made.w, i + 1))
  }

  function Prepend(fds: seq<int>, m: Maps): Maps { m.(fds := fds + m.fds) }

  /** The source takes the definition at the position of the name without a check. */
  predicate MapsIndexable(e: Elf, sorted: seq<Sym>) {
    e.maps.Defs? && MapNames(e, sorted).0 ==> |MapNames(e, sorted).1| <= |e.maps.all|
  }

  function CreatedMaps(cfg: Config, e: Elf, sorted: seq<Sym>, faults: nat -> Faults, w: World): Maps
    requires Valid(w) && MapsIndexable(e, sorted)
  {
    match e.maps
    case Missing => Maps(w, Returned(0), [])
    case Malformed => Maps(w, Returned(-1), [])
    case Defs(defs) =>
      var names := MapNames(e, sorted);
      if !names.0 then Maps(w, Returned(-1), []) else MakeMaps(cfg, names.1, defs, faults, w, 0)
  }

  // ---- the code ----

  method MapMatchesExpectations(k: Kernel, fd: int, def: MapDef, kind: nat, pageSize: nat) returns (ok: bool)
    requires Valid(k.State()) && fd in k.fds
    ensures ok <==> k.objects[k.fds[fd]] == MapObject(
      Attrs(kind, def.keySize, def.valueSize,
        if kind == TYPE_RINGBUF && def.maxEntries < pageSize then pageSize else def.maxEntries,
        KernelFlags(kind, def.flags)))
  {
    var o := k.objects[k.fds[fd]];
    if !o.MapObject? {
      return false;
    }
    var desiredMapFlags := def.flags;
    if (kind == TYPE_DEVMAP || kind == TYPE_DEVMAP_HASH) && desiredMapFlags / F_RDONLY_PROG % 2 == 0 {
      desiredMapFlags := desiredMapFlags + F_RDONLY_PROG;
    }
    var desiredMaxEntries := def.maxEntries;
    if kind == TYPE_RINGBUF {
      if desiredMaxEntries < pageSize {
        desiredMaxEntries := pageSize;
      }
    }
    ok := o.attrs.kind == kind && o.attrs.keySize == def.keySize && o.attrs.valueSize == def.valueSize
      && o.attrs.maxEntries == desiredMaxEntries && o.attrs.flags == desiredMapFlags;
  }

  /** The body of the loop for a map in range. */
  method OneMap(k: Kernel, cfg: Config, name: string, def: MapDef, f: Faults) returns (err: int, fd: int)
    requires Valid(k.State())
    modifies k
    ensures Made(k.State(), err, fd) == MakeMap(cfg, old(k.State()), name, def, f)
  {
    var kind := def.kind;
    if kind == TYPE_DEVMAP_HASH && cfg.kvers < KVER_5_4 {
      kind := TYPE_HASH;
    }
    var maxEntries := def.maxEntries;
    if kind == TYPE_RINGBUF {
      if maxEntries < cfg.pageSize {
        maxEntries := cfg.pageSize;
      }
    }
    var mapPinLoc := MapPath(cfg, name, def);
    var reuse := false;
    var savedErrno;
    if mapPinLoc in k.pins {
      OpenedGrows(k.State(), k.pins[mapPinLoc]);
      fd, savedErrno := k.ObjGet(mapPinLoc, f.get);
      reuse := true;
    } else {
      var attrs := Attrs(kind, def.keySize, def.valueSize, maxEntries, def.flags);
      CreatedGrows(k.State(), MapObject(Stored(attrs)));
      fd, savedErrno := k.Create(MapObject(Stored(attrs)), f.create);
    }
    if fd < 0 {
      return Minus(savedErrno), -1;
    }
    var matches := MapMatchesExpectations(k, fd, def, kind, cfg.pageSize);
    if !matches {
      return -ENOTUNIQ, -1;
    }
    if !reuse {
      var ret := k.Pin(fd, mapPinLoc, f.pin);
      if ret != 0 {
        return Minus(ret), -1;
      }
      if f.chmod != 0 {
        return Minus(f.chmod), -1;
      }
      if f.chown != 0 {
        return Minus(f.chown), -1;
      }
    }
    err := 0;
  }

  method CreateMaps(k: Kernel, cfg: Config, e: Elf, sorted: seq<Sym>, faults: nat -> Faults)
    returns (exit: Exit, mapFds: seq<int>)
    requires Valid(k.State()) && MapsIndexable(e, sorted)
    modifies k
    ensures Maps(k.State(), exit, mapFds) == CreatedMaps(cfg, e, sorted, faults, old(k.State()))
  {
    hide MakeMap, MapPath, SectionSymNames;
    mapFds := [];
    if e.maps.Missing? {
      return Returned(0), mapFds;
    }
    if e.maps.Malformed? {
      return Returned(-1), mapFds;
    }
    var md := e.maps.all;
    var ret, mapNames := GetSectionSymNames(SectionNames(e), sorted, "maps", None);
    if ret != 0 {
      return Returned(ret), mapFds;
    }
    var i := 0;
    PrependNothing(MakeMaps(cfg, mapNames, md, faults, k.State(), 0));
    while i < |mapNames|
      invariant 0 <= i <= |mapNames| && Valid(k.State())
      invariant CreatedMaps(cfg, e, sorted, faults, old(k.State())) ==
        Prepend(mapFds, MakeMaps(cfg, mapNames, md, faults, k.State(), i))
    {
      assert mapFds + [] == mapFds;
      if md[i].zero != 0 {
        return Aborted, mapFds;
      }
      if !InRange(cfg, md[i].minKver, md[i].maxKver) {
        PrependTwice(mapFds, [-1], MakeMaps(cfg, mapNames, md, faults, k.State(), i + 1));
        mapFds := mapFds + [-1];
        i := i + 1;
        continue;
      }
      MakeMapGrows(cfg, k.State(), mapNames[i], md[i], faults(i));
      var err, fd := OneMap(k, cfg, mapNames[i], md[i], faults(i));
      if err != 0 {
        return Returned(err), mapFds;
      }
      PrependTwice(mapFds, [fd], MakeMaps(cfg, mapNames, md, faults, k.State(), i + 1));
      mapFds := mapFds + [fd];
      i := i + 1;
    }
    assert mapFds + [] == mapFds;
    exit := Returned(0);
  }

  lemma PrependNothing(m: Maps)
    ensures Prepend([], m) == m
  {
    assert [] + m.fds == m.fds;
  }

  lemma PrependTwice(a: seq<int>, b: seq<int>, m: Maps)
    ensures Prepend(a, Prepend(b, m)) == Prepend(a + b, m)
  {
    assert a + (b + m.fds) == a + b + m.fds;
  }

  // ---- what holds of the maps ----

  lemma MakeMapGrows(cfg: Config, w: World, name: string, def: MapDef, f: Faults)
    requires Valid(w)
    ensures var made := MakeMap(cfg, w, name, def, f);
      && Valid(made.w) && Grows(w, made.w)
      && (made.err == 0 ==> OfPinned(made.w, cfg, name, def, made.fd))
  {
    hide MapPath, Expected, Requested, Stored, OfPinned, AskedFor;
    var path, made := MapPath(cfg, name, def), MakeMap(cfg, w, name, def, f);
    OfPinnedIs(made.w, cfg, name, def, made.fd);
    if path in w.pins {
      OpenedGrows(w, w.pins[path]);
    } else {
      var o := MapObject(Stored(Requested(cfg, def)));
      CreatedGrows(w, o);
      PinnedGrows(Created(w, o), w.nextFd, path);
      GrowsTwice(w, Created(w, o), Pinned(Created(w, o), w.nextFd, path));
      AsExpected(cfg, def);
    }
  }

  lemma AsExpected(cfg: Config, def: MapDef)
    ensures Stored(Requested(cfg, def)) == Expected(cfg, def)
  {
  }

  /** The descriptor is one of the map pinned for the name, under the object's name unless it is
      shared, and the map is what the definition asks for. */
  predicate OfPinned(w: World, cfg: Config, name: string, def: MapDef, fd: int) {
    var pin := "/sys/fs/bpf/" + cfg.prefix + "map_" + (if def.shared then "" else cfg.objName) + "_" + name;
    && pin in w.pins && fd in w.fds && w.fds[fd] == w.pins[pin]
    && w.pins[pin] in w.objects && w.objects[w.pins[pin]].MapObject?
    && AskedFor(w.objects[w.pins[pin]].attrs, cfg, def)
  }

  /** A map that is not for this kernel has no descriptor. */
  predicate FdFor(w: World, cfg: Config, name: string, def: MapDef, fd: int) {
    if def.minKver <= cfg.kvers < def.maxKver then OfPinned(w, cfg, name, def, fd) else fd == -1
  }

  lemma OfPinnedIs(w: World, cfg: Config, name: string, def: MapDef, fd: int)
    ensures var path := MapPath(cfg, name, def);
      OfPinned(w, cfg, name, def, fd) <==>
        && path in w.pins && fd in w.fds && w.fds[fd] == w.pins[path]
        && w.pins[path] in w.objects && w.objects[w.pins[path]] == MapObject(Expected(cfg, def))
  {
    hide AskedFor, Expected;
    var path := MapPath(cfg, name, def);
    if path in w.pins && w.pins[path] in w.objects && w.objects[w.pins[path]].MapObject? {
      ExpectedExactly(w.objects[w.pins[path]].attrs, cfg, def);
    }
  }

  /** The errno returned is that of the first call to fail, with ENOTUNIQ for a map that does not
      match; a map that could be pinned stays pinned whatever fails after that. */
  lemma FirstErrno(cfg: Config, w: World, name: string, def: MapDef, f: Faults)
    requires Valid(w)
    ensures var path, made := MapPath(cfg, name, def), MakeMap(cfg, w, name, def, f);
      var errnos := if path in w.pins then [f.get, if Compatible(w, cfg, name, def) then 0 else 76]
        else [f.create, f.pin, f.chmod, f.chown];
      && (made.err == 0 <==> forall k :: 0 <= k < |errnos| ==> errnos[k] == 0)
      && (forall k :: 0 <= k < |errnos| && errnos[k] != 0 && (forall j :: 0 <= j < k ==> errnos[j] == 0) ==>
            made.err == Minus(errnos[k]))
      && (path in made.w.pins <==> path in w.pins || (f.create == 0 && f.pin == 0))
  {
    hide MapPath, Expected, Requested, Stored;
    var path, made := MapPath(cfg, name, def), MakeMap(cfg, w, name, def, f);
    if path !in w.pins {
      var errnos := [f.create, f.pin, f.chmod, f.chown];
      assert errnos[0] == f.create && errnos[1] == f.pin && errnos[2] == f.chmod && errnos[3] == f.chown;
    } else {
      var errnos := [f.get, if Compatible(w, cfg, name, def) then 0 else 76];
      assert errnos[0] == f.get && errnos[1] == if Compatible(w, cfg, name, def) then 0 else 76;
    }
  }

  /** However the call ends, no pin is rebound and no object changed; if it succeeds, there is
      exactly one descriptor for every name, in order. */
  lemma {:induction false} OneFdPerName(cfg: Config, names: seq<string>, defs: seq<MapDef>, faults: nat -> Faults,
      w: World, i: nat)
    requires Valid(w) && i <= |names| <= |defs|
    ensures var m := MakeMaps(cfg, names, defs, faults, w, i);
      && Valid(m.w) && Grows(w, m.w)
      && (m.exit == Returned(0) ==>
            && |m.fds| == |names| - i
            && forall j :: i <= j < |names| ==> defs[j].zero == 0 && FdFor(m.w, cfg, names[j], defs[j], m.fds[j - i]))
    decreases |names| - i
  {
    hide MakeMap, MapPath, Expected, OfPinned, Grows, Valid;
    GrowsNot(w);
    if i < |names| && defs[i].zero == 0 {
      if InRange(cfg, defs[i].minKver, defs[i].maxKver) {
        var made := MakeMap(cfg, w, names[i], defs[i], faults(i));
        MakeMapGrows(cfg, w, names[i], defs[i], faults(i));
        if made.err == 0 {
          OneFdPerName(cfg, names, defs, faults, made.w, i + 1);
          var rest := MakeMaps(cfg, names, defs, faults, made.w, i + 1);
          GrowsTwice(w, made.w, rest.w);
          StaysPinned(made.w, rest.w, cfg, names[i], defs[i], made.fd);
        }
      } else {
        OneFdPerName(cfg, names, defs, faults, w, i + 1);
      }
    }
  }

  /** The process aborts exactly at a definition whose last field is not zero, once every map before
      it has its descriptor or was skipped. */
  lemma {:induction false} AbortsExactly(cfg: Config, names: seq<string>, defs: seq<MapDef>, faults: nat -> Faults,
      w: World, i: nat)
    requires Valid(w) && i <= |names| <= |defs|
    ensures var m := MakeMaps(cfg, names, defs, faults, w, i);
      && i + |m.fds| <= |names|
      && (m.exit == Aborted <==> i + |m.fds| < |names| && defs[i + |m.fds|].zero != 0)
      && forall j :: i <= j < i + |m.fds| ==> defs[j].zero == 0
    decreases |names| - i
  {
    hide MakeMap, MapPath, Valid, Grows;
    if i < |names| && defs[i].zero == 0 {
      if InRange(cfg, defs[i].minKver, defs[i].maxKver) {
        var made := MakeMap(cfg, w, names[i], defs[i], faults(i));
        MakeMapGrows(cfg, w, names[i], defs[i], faults(i));
        if made.err == 0 {
          AbortsExactly(cfg, names, defs, faults, made.w, i + 1);
        }
      } else {
        AbortsExactly(cfg, names, defs, faults, w, i + 1);
      }
    }
  }

  lemma StaysPinned(w: World, w': World, cfg: Config, name: string, def: MapDef, fd: int)
    requires Grows(w, w') && OfPinned(w, cfg, name, def, fd)
    ensures OfPinned(w', cfg, name, def, fd)
  {
    hide AskedFor;
  }

  /** Only paths of maps are pinned. */
  lemma {:induction false} PinsMapPaths(cfg: Config, names: seq<string>, defs: seq<MapDef>, faults: nat -> Faults,
      w: World, i: nat)
    requires Valid(w) && i <= |names| <= |defs|
    ensures forall path :: path in MakeMaps(cfg, names, defs, faults, w, i).w.pins ==>
      path in w.pins || MapPrefix(cfg) <= path
    decreases |names| - i
  {
    hide MakeMap, MapPrefix, Valid, Grows;
    if i < |names| && defs[i].zero == 0 {
      if InRange(cfg, defs[i].minKver, defs[i].maxKver) {
        var made := MakeMap(cfg, w, names[i], defs[i], faults(i));
        MakeMapGrows(cfg, w, names[i], defs[i], faults(i));
        PinsOnePath(cfg, w, names[i], defs[i], faults(i));
        if made.err == 0 {
          PinsMapPaths(cfg, names, defs, faults, made.w, i + 1);
        }
      } else {
        PinsMapPaths(cfg, names, defs, faults, w, i + 1);
      }
    }
  }

  lemma PinsOnePath(cfg: Config, w: World, name: string, def: MapDef, f: Faults)
    requires Valid(w)
    ensures forall path :: path in MakeMap(cfg, w, name, def, f).w.pins ==> path in w.pins || MapPrefix(cfg) <= path
  {
    hide MapPrefix, Expected, Requested, Stored;
    var prefix, rest := MapPrefix(cfg), (if def.shared then "" else cfg.objName) + "_" + name;
    assert MapPath(cfg, name, def) == prefix + rest;
  }

  /** What is already pinned at the path, if anything, is a map as the definition asks for it. */
  predicate Compatible(w: World, cfg: Config, name: string, def: MapDef) {
    var path := MapPath(cfg, name, def);
    path in w.pins ==> w.pins[path] in w.objects && w.objects[w.pins[path]] == MapObject(Expected(cfg, def))
  }

  predicate Wanted(cfg: Config, def: MapDef) { def.minKver <= cfg.kvers < def.maxKver }

  predicate DistinctPaths(cfg: Config, names: seq<string>, defs: seq<MapDef>)
    requires |names| <= |defs|
  {
    forall i, j :: 0 <= i < j < |names| && Wanted(cfg, defs[i]) && Wanted(cfg, defs[j]) ==>
      MapPath(cfg, names[i], defs[i]) != MapPath(cfg, names[j], defs[j])
  }

  /** Where no system call fails, the maps are made exactly if nothing else is pinned at their
      paths, and otherwise the call fails with ENOTUNIQ. */
  lemma {:induction false} SucceedsExactly(cfg: Config, names: seq<string>, defs: seq<MapDef>, faults: nat -> Faults,
      w: World, i: nat)
    requires Valid(w) && i <= |names| <= |defs| && DistinctPaths(cfg, names, defs)
    requires forall j: nat :: j < |names| ==> faults(j) == NO_FAULTS && defs[j].zero == 0
    ensures MakeMaps(cfg, names, defs, faults, w, i).exit ==
      if forall j :: i <= j < |names| && Wanted(cfg, defs[j]) ==> Compatible(w, cfg, names[j], defs[j])
      then Returned(0) else Returned(-ENOTUNIQ)
    decreases |names| - i
  {
    hide MapPath, Expected, Requested, Stored, MakeMap, Grows, Valid;
    if i < |names| {
      if Wanted(cfg, defs[i]) {
        var made := MakeMap(cfg, w, names[i], defs[i], faults(i));
        MakeMapGrows(cfg, w, names[i], defs[i], faults(i));
        MakeMapExactly(cfg, w, names[i], defs[i]);
        if made.err == 0 {
          SucceedsExactly(cfg, names, defs, faults, made.w, i + 1);
          forall j | i < j < |names| && Wanted(cfg, defs[j])
            ensures Compatible(w, cfg, names[j], defs[j]) == Compatible(made.w, cfg, names[j], defs[j])
          {
            MakesOnePin(cfg, w, names[i], defs[i], MapPath(cfg, names[j], defs[j]));
            CompatibleStays(w, made.w, cfg, names[j], defs[j]);
          }
        }
      } else {
        SucceedsExactly(cfg, names, defs, faults, w, i + 1);
      }
    }
  }

  lemma MakeMapExactly(cfg: Config, w: World, name: string, def: MapDef)
    requires Valid(w)
    ensures MakeMap(cfg, w, name, def, NO_FAULTS).err == if Compatible(w, cfg, name, def) then 0 else -ENOTUNIQ
  {
    hide MapPath, Expected, Requested, Stored;
  }

  lemma CompatibleStays(w: World, w': World, cfg: Config, name: string, def: MapDef)
    requires Valid(w) && Grows(w, w') && (MapPath(cfg, name, def) in w'.pins <==> MapPath(cfg, name, def) in w.pins)
    ensures Compatible(w, cfg, name, def) == Compatible(w', cfg, name, def)
  {
    hide MapPath, Expected;
  }

  lemma MakesOnePin(cfg: Config, w: World, name: string, def: MapDef, path: string)
    requires Valid(w) && path != MapPath(cfg, name, def)
    ensures var w' := MakeMap(cfg, w, name, def, NO_FAULTS).w;
      && (path in w'.pins <==> path in w.pins)
      && (path in w.pins ==> w'.pins[path] == w.pins[path])
  {
    hide MapPath, Expected, Requested, Stored;
  }

  /** A path that was free is pinned to an object that is new. */
  lemma {:induction false} FreshPins(cfg: Config, names: seq<string>, defs: seq<MapDef>, faults: nat -> Faults,
      w: World, i: nat, path: string)
    requires Valid(w) && i <= |names| <= |defs| && path !in w.pins
    ensures var w' := MakeMaps(cfg, names, defs, faults, w, i).w; path in w'.pins ==> w'.pins[path] >= w.nextId
    decreases |names| - i
  {
    hide MakeMap, MapPath, Valid, Grows;
    if i < |names| && defs[i].zero == 0 {
      if InRange(cfg, defs[i].minKver, defs[i].maxKver) {
        var made := MakeMap(cfg, w, names[i], defs[i], faults(i));
        MakeMapGrows(cfg, w, names[i], defs[i], faults(i));
        FreshPin(cfg, w, names[i], defs[i], faults(i), path);
        if made.err == 0 {
          var w' := MakeMaps(cfg, names, defs, faults, made.w, i + 1).w;
          if path in made.w.pins {
            OneFdPerName(cfg, names, defs, faults, made.w, i + 1);
            PinKept(made.w, w', path);
          } else {
            FreshPins(cfg, names, defs, faults, made.w, i + 1, path);
          }
        }
      } else {
        FreshPins(cfg, names, defs, faults, w, i + 1, path);
      }
    }
  }

  lemma FreshPin(cfg: Config, w: World, name: string, def: MapDef, f: Faults, path: string)
    requires Valid(w) && path !in w.pins
    ensures var made := MakeMap(cfg, w, name, def, f);
      made.w.nextId >= w.nextId && (path in made.w.pins ==> made.w.pins[path] >= w.nextId)
  {
    hide MapPath, Expected, Requested, Stored;
  }

  lemma {:induction false} MakesMapsOnly(cfg: Config, names: seq<string>, defs: seq<MapDef>, faults: nat -> Faults,
      w: World, i: nat)
    requires Valid(w) && i <= |names| <= |defs|
    ensures var objects := MakeMaps(cfg, names, defs, faults, w, i).w.objects;
      forall id :: id in objects && id !in w.objects ==> objects[id].MapObject?
    decreases |names| - i
  {
    hide MakeMap, MapPath, Valid;
    if i < |names| && defs[i].zero == 0 {
      if InRange(cfg, defs[i].minKver, defs[i].maxKver) {
        var made := MakeMap(cfg, w, names[i], defs[i], faults(i));
        MakeMapGrows(cfg, w, names[i], defs[i], faults(i));
        MakesAMap(cfg, w, names[i], defs[i], faults(i));
        if made.err == 0 {
          MakesMapsOnly(cfg, names, defs, faults, made.w, i + 1);
          OneFdPerName(cfg, names, defs, faults, made.w, i + 1);
        }
      } else {
        MakesMapsOnly(cfg, names, defs, faults, w, i + 1);
      }
    }
  }

  lemma MakesAMap(cfg: Config, w: World, name: string, def: MapDef, f: Faults)
    requires Valid(w)
    ensures var objects := MakeMap(cfg, w, name, def, f).w.objects;
      forall id :: id in objects && id !in w.objects ==> objects[id].MapObject?
  {
    hide MapPath, Expected, Requested, Stored;
  }

  lemma PinKept(w: World, w': World, path: string)
    requires Grows(w, w') && path in w.pins
    ensures path in w'.pins && w'.pins[path] == w.pins[path]
  {
  }

  lemma WantedIsPinned(cfg: Config, names: seq<string>, defs: seq<MapDef>, faults: nat -> Faults, w: World, i: nat)
    requires Valid(w) && |names| <= |defs| && MakeMaps(cfg, names, defs, faults, w, 0).exit == Returned(0)
    requires i < |names| && Wanted(cfg, defs[i])
    ensures var m := MakeMaps(cfg, names, defs, faults, w, 0);
      Grows(w, m.w) && |m.fds| == |names| && OfPinned(m.w, cfg, names[i], defs[i], m.fds[i])
  {
    hide MakeMaps, OfPinned, Grows, Valid;
    OneFdPerName(cfg, names, defs, faults, w, 0);
    var m := MakeMaps(cfg, names, defs, faults, w, 0);
    assert FdFor(m.w, cfg, names[i], defs[i], m.fds[i - 0]);
  }

  /** Two objects, loaded one after the other with anything in between, that name the same path end
      up with the same map, and their definitions ask for the same. */
  lemma SharedMapsAgree(
      cfgA: Config, namesA: seq<string>, defsA: seq<MapDef>, faultsA: nat -> Faults, before: World, i: nat,
      cfgB: Config, namesB: seq<string>, defsB: seq<MapDef>, faultsB: nat -> Faults, between: World, j: nat)
    requires Valid(before) && |namesA| <= |defsA| && Valid(between) && |namesB| <= |defsB|
    requires MakeMaps(cfgA, namesA, defsA, faultsA, before, 0).exit == Returned(0)
    requires Grows(MakeMaps(cfgA, namesA, defsA, faultsA, before, 0).w, between)
    requires MakeMaps(cfgB, namesB, defsB, faultsB, between, 0).exit == Returned(0)
    requires i < |namesA| && Wanted(cfgA, defsA[i]) && j < |namesB| && Wanted(cfgB, defsB[j])
    requires MapPath(cfgA, namesA[i], defsA[i]) == MapPath(cfgB, namesB[j], defsB[j])
    ensures var a := MakeMaps(cfgA, namesA, defsA, faultsA, before, 0);
      var b := MakeMaps(cfgB, namesB, defsB, faultsB, between, 0);
      && |a.fds| == |namesA| && |b.fds| == |namesB|
      && a.fds[i] in b.w.fds && b.fds[j] in b.w.fds
      && b.w.fds[a.fds[i]] == b.w.fds[b.fds[j]]
    ensures Expected(cfgA, defsA[i]) == Expected(cfgB, defsB[j])
  {
    hide MapPath, Expected, MakeMaps, OfPinned, Grows, Valid, Wanted;
    WantedIsPinned(cfgA, namesA, defsA, faultsA, before, i);
    WantedIsPinned(cfgB, namesB, defsB, faultsB, between, j);
    var a, b := MakeMaps(cfgA, namesA, defsA, faultsA, before, 0), MakeMaps(cfgB, namesB, defsB, faultsB, between, 0);
    GrowsTwice(a.w, between, b.w);
    SamePinSameMap(a.w, cfgA, namesA[i], defsA[i], a.fds[i], b.w, cfgB, namesB[j], defsB[j], b.fds[j]);
  }

  lemma SamePinSameMap(a: World, cfgA: Config, nameA: string, defA: MapDef, fdA: int,
      b: World, cfgB: Config, nameB: string, defB: MapDef, fdB: int)
    requires Grows(a, b) && OfPinned(a, cfgA, nameA, defA, fdA) && OfPinned(b, cfgB, nameB, defB, fdB)
    requires MapPath(cfgA, nameA, defA) == MapPath(cfgB, nameB, defB)
    ensures fdA in b.fds && fdB in b.fds && b.fds[fdA] == b.fds[fdB]
    ensures Expected(cfgA, defA) == Expected(cfgB, defB)
  {
    hide MapPath, Expected, OfPinned;
    OfPinnedIs(a, cfgA, nameA, defA, fdA);
    OfPinnedIs(b, cfgB, nameB, defB, fdB);
  }

  /** A shared map of one name is the same map for both objects, whatever they are called. */
  lemma SharedIsSame(
      cfgA: Config, namesA: seq<string>, defsA: seq<MapDef>, faultsA: nat -> Faults, before: World, i: nat,
      cfgB: Config, namesB: seq<string>, defsB: seq<MapDef>, faultsB: nat -> Faults, between: World, j: nat)
    requires Valid(before) && |namesA| <= |defsA| && Valid(between) && |namesB| <= |defsB|
    requires MakeMaps(cfgA, namesA, defsA, faultsA, before, 0).exit == Returned(0)
    requires Grows(MakeMaps(cfgA, namesA, defsA, faultsA, before, 0).w, between)
    requires MakeMaps(cfgB, namesB, defsB, faultsB, between, 0).exit == Returned(0)
    requires i < |namesA| && Wanted(cfgA, defsA[i]) && j < |namesB| && Wanted(cfgB, defsB[j])
    requires cfgA.prefix == cfgB.prefix && namesA[i] == namesB[j] && defsA[i].shared && defsB[j].shared
    ensures var a := MakeMaps(cfgA, namesA, defsA, faultsA, before, 0);
      var b := MakeMaps(cfgB, namesB, defsB, faultsB, between, 0);
      && |a.fds| == |namesA| && |b.fds| == |namesB|
      && a.fds[i] in b.w.fds && b.fds[j] in b.w.fds
      && b.w.fds[a.fds[i]] == b.w.fds[b.fds[j]]
  {
    hide MapPath, MakeMaps, Grows, Valid;
    PathsMeet(cfgA, namesA[i], defsA[i], cfgB, namesB[j], defsB[j]);
    SharedMapsAgree(cfgA, namesA, defsA, faultsA, before, i, cfgB, namesB, defsB, faultsB, between, j);
  }

  predicate Unpinned(w: World, cfg: Config, name: string) {
    "/sys/fs/bpf/" + cfg.prefix + "map_" + cfg.objName + "_" + name !in w.pins
  }

  predicate PinnedAnew(w: World, w': World, cfg: Config, name: string) {
    var pin := "/sys/fs/bpf/" + cfg.prefix + "map_" + cfg.objName + "_" + name;
    pin in w'.pins ==> w'.pins[pin] >= w.nextId
  }

  lemma NewlyPinned(cfg: Config, names: seq<string>, defs: seq<MapDef>, faults: nat -> Faults, w: World, name: string)
    requires Valid(w) && |names| <= |defs| && Unpinned(w, cfg, name)
    ensures PinnedAnew(w, MakeMaps(cfg, names, defs, faults, w, 0).w, cfg, name)
  {
    hide MakeMaps, Valid;
    FreshPins(cfg, names, defs, faults, w, 0, "/sys/fs/bpf/" + cfg.prefix + "map_" + cfg.objName + "_" + name);
  }

  /** Private maps of one name are two maps for two objects, if nothing was pinned for the second
      before it was loaded. */
  lemma PrivateAreTwo(
      cfgA: Config, namesA: seq<string>, defsA: seq<MapDef>, faultsA: nat -> Faults, before: World, i: nat,
      cfgB: Config, namesB: seq<string>, defsB: seq<MapDef>, faultsB: nat -> Faults, between: World, j: nat)
    requires Valid(before) && |namesA| <= |defsA| && Valid(between) && |namesB| <= |defsB|
    requires MakeMaps(cfgA, namesA, defsA, faultsA, before, 0).exit == Returned(0)
    requires Grows(MakeMaps(cfgA, namesA, defsA, faultsA, before, 0).w, between)
    requires MakeMaps(cfgB, namesB, defsB, faultsB, between, 0).exit == Returned(0)
    requires i < |namesA| && Wanted(cfgA, defsA[i]) && j < |namesB| && Wanted(cfgB, defsB[j])
    requires cfgA.prefix == cfgB.prefix && namesA[i] == namesB[j] && !defsA[i].shared && !defsB[j].shared
    requires Unpinned(between, cfgB, namesB[j])
    ensures var a := MakeMaps(cfgA, namesA, defsA, faultsA, before, 0);
      var b := MakeMaps(cfgB, namesB, defsB, faultsB, between, 0);
      && |a.fds| == |namesA| && |b.fds| == |namesB|
      && a.fds[i] in b.w.fds && b.fds[j] in b.w.fds
      && b.w.fds[a.fds[i]] != b.w.fds[b.fds[j]]
  {
    hide MapPath, MakeMaps, OfPinned, Grows, Valid, Unpinned, PinnedAnew, Wanted;
    WantedIsPinned(cfgA, namesA, defsA, faultsA, before, i);
    WantedIsPinned(cfgB, namesB, defsB, faultsB, between, j);
    var a, b := MakeMaps(cfgA, namesA, defsA, faultsA, before, 0), MakeMaps(cfgB, namesB, defsB, faultsB, between, 0);
    StaysPinned(a.w, between, cfgA, namesA[i], defsA[i], a.fds[i]);
    NewlyPinned(cfgB, namesB, defsB, faultsB, between, namesB[j]);
    OldAndNew(between, cfgA, namesA[i], defsA[i], a.fds[i], b.w, cfgB, namesB[j], defsB[j], b.fds[j]);
  }

  lemma OldAndNew(w: World, cfgA: Config, nameA: string, defA: MapDef, fdA: int,
      w': World, cfgB: Config, nameB: string, defB: MapDef, fdB: int)
    requires Valid(w) && Grows(w, w') && OfPinned(w, cfgA, nameA, defA, fdA) && OfPinned(w', cfgB, nameB, defB, fdB)
    requires !defB.shared && PinnedAnew(w, w', cfgB, nameB)
    ensures fdA in w'.fds && fdB in w'.fds && w'.fds[fdA] != w'.fds[fdB]
  {
    hide AskedFor;
  }

  /** Everything a wanted map needs is there. */
  predicate AllPinned(w: World, cfg: Config, names: seq<string>, defs: seq<MapDef>)
    requires |names| <= |defs|
  {
    forall j :: 0 <= j < |names| ==>
      && defs[j].zero == 0
      && (Wanted(cfg, defs[j]) ==> MapPath(cfg, names[j], defs[j]) in w.pins && Compatible(w, cfg, names[j], defs[j]))
  }

  lemma {:induction false} OnlyOpens(cfg: Config, names: seq<string>, defs: seq<MapDef>, faults: nat -> Faults,
      w: World, i: nat)
    requires Valid(w) && i <= |names| <= |defs| && AllPinned(w, cfg, names, defs)
    requires forall j: nat :: j < |names| ==> faults(j).get == 0
    ensures var m := MakeMaps(cfg, names, defs, faults, w, i);
      m.exit == Returned(0) && m.w.pins == w.pins && m.w.objects == w.objects && m.w.nextId == w.nextId
    decreases |names| - i
  {
    hide MapPath, Expected, Requested, Stored;
    if i < |names| {
      if Wanted(cfg, defs[i]) {
        MakeMapGrows(cfg, w, names[i], defs[i], faults(i));
        OnlyOpens(cfg, names, defs, faults, MakeMap(cfg, w, names[i], defs[i], faults(i)).w, i + 1);
      } else {
        OnlyOpens(cfg, names, defs, faults, w, i + 1);
      }
    }
  }

  /** Running a successful call again, whatever has been loaded since and whatever would now fail
      but opening what is pinned, succeeds and creates nothing. */
  lemma RerunCreatesNothing(cfg: Config, names: seq<string>, defs: seq<MapDef>, faults: nat -> Faults, before: World,
      later: World, again: nat -> Faults)
    requires Valid(before) && Valid(later) && |names| <= |defs|
    requires MakeMaps(cfg, names, defs, faults, before, 0).exit == Returned(0)
    requires Grows(MakeMaps(cfg, names, defs, faults, before, 0).w, later)
    requires forall j: nat :: j < |names| ==> again(j).get == 0
    ensures var m := MakeMaps(cfg, names, defs, again, later, 0);
      m.exit == Returned(0) && m.w.pins == later.pins && m.w.objects == later.objects && m.w.nextId == later.nextId
  {
    hide MapPath, Expected, MakeMaps, OfPinned, Grows, Valid;
    var m := MakeMaps(cfg, names, defs, faults, before, 0);
    OneFdPerName(cfg, names, defs, faults, before, 0);
    forall j | 0 <= j < |names| && Wanted(cfg, defs[j])
      ensures MapPath(cfg, names[j], defs[j]) in later.pins && Compatible(later, cfg, names[j], defs[j])
    {
      assert FdFor(m.w, cfg, names[j], defs[j], m.fds[j - 0]);
      StaysPinned(m.w, later, cfg, names[j], defs[j], m.fds[j]);
      OfPinnedIs(later, cfg, names[j], defs[j], m.fds[j]);
    }
    OnlyOpens(cfg, names, defs, again, later, 0);
  }
}
