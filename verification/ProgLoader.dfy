/** loadCodeSections: programs are loaded and pinned, or found pinned. */
module ProgLoader {
  import opened Options
  import opened ElfCode
  import opened PinnedObjects
  import M = MapLoader

  const EINVAL: int := 22

  // ---- names ----

  /** The last place of a character, or -1. */
  function FindLast(s: string, c: char): (r: int)
    ensures -1 <= r < |s|
    ensures r >= 0 ==> s[r] == c
    ensures forall i :: r < i < |s| ==> s[i] != c
  {
    if s == [] then -1 else if s[|s| - 1] == c then |s| - 1 else FindLast(s[..|s| - 1], c)
  }

  /** Everything before the last c, or all of it. */
  function Before(s: string, c: char): string {
    var at := FindLast(s, c);
    if at < 0 then s else s[..at]
  }

  /** Variants of a program differ in what follows the last $. */
  function ProgPath(cfg: M.Config, name: string): string {
    "/sys/fs/bpf/" + cfg.prefix + "prog_" + cfg.objName + "_" + Before(name, '$')
  }

  lemma BeforeLast(base: string, c: char, rest: string)
    requires c !in rest
    ensures Before(base + [c] + rest, c) == base
    ensures Before(rest, c) == rest
  {
    var s := base + [c] + rest;
    assert s[|base|] == c && forall k :: |base| < k < |s| ==> s[k] == rest[k - |base| - 1];
    assert s[..|base|] == base;
  }

  /** What follows the last $ of a name is left out, and a name without one is used as it is. */
  lemma VariantsShareAPath(cfg: M.Config, name: string, suffix: string)
    requires '$' !in suffix
    ensures ProgPath(cfg, name + "$" + suffix) == "/sys/fs/bpf/" + cfg.prefix + "prog_" + cfg.objName + "_" + name
    ensures '$' !in name ==>
      ProgPath(cfg, name) == "/sys/fs/bpf/" + cfg.prefix + "prog_" + cfg.objName + "_" + name
  {
    BeforeLast(name, '$', suffix);
    assert name + ['$'] + suffix == name + "$" + suffix;
    if '$' !in name {
      BeforeLast("", '$', name);
    }
  }

  // ---- specification ----

  datatype Faults = Faults(get: nat, load: nat, pin: nat, chmod: nat, chown: nat)

  const NO_FAULTS: Faults := Faults(0, 0, 0, 0, 0)

  datatype Progs = Progs(w: World, ret: int, fds: seq<int>)

  function ObjectOf(c: CodeSection): Object { ProgObject(c.kind, c.name, c.insns) }

  /** A program in range: the world after it, the error to return or 0, and its descriptor. */
  function LoadOne(cfg: M.Config, w: World, c: CodeSection, def: ProgDef, f: Faults): M.Made
    requires Valid(w)
  {
    var path := ProgPath(cfg, c.name);
    if path in w.pins then
      if f.get != 0 then M.Made(w, -1, -1) else M.Made(Opened(w, w.pins[path]), 0, w.nextFd)
    else if f.load != 0 then M.Made(w, if def.optional then 0 else -1, -1)
    else
      var created := Created(w, ObjectOf(c));
      if f.pin != 0 then M.Made(created, M.Minus(f.pin), -1)
      else
        var pinned := Pinned(created, w.nextFd, path);
        if f.chmod != 0 then M.Made(pinned, M.Minus(f.chmod), -1)
        else if f.chown != 0 then M.Made(pinned, M.Minus(f.chown), -1)
        else M.Made(pinned, 0, w.nextFd)
  }

  function LoadFrom(cfg: M.Config, cs: seq<CodeSection>, faults: nat -> Faults, w: World, i: nat): Progs
    requires Valid(w) && i <= |cs|
    decreases |cs| - i
  {
    if i == |cs| then Progs(w, 0, [])
    else
      match cs[i].def
      case None => Progs(w, -EINVAL, [])
      case Some(def) =>
        if !M.InRange(cfg, def.minKver, def.maxKver) then Prepend([-1], LoadFrom(cfg, cs, faults, w, i + 1))
        else
          var made := LoadOne(cfg, w, cs[i], def, faults(i));
          LoadOneGrows(cfg, w, cs[i], def, faults(i));
          if made.err != 0 then Progs(made.w, made.err, [])
          else Prepend([made.fd], LoadFrom(cfg, cs, faults, made.w, i + 1))
  }

  function Prepend(fds: seq<int>, p: Progs): Progs { p.(fds := fds + p.fds) }

  function LoadedSections(cfg: M.Config, cs: seq<CodeSection>, faults: nat -> Faults, w: World): Progs
    requires Valid(w)
  {
    if cfg.kvers == 0 then Progs(w, -EINVAL, []) else LoadFrom(cfg, cs, faults, w, 0)
  }

  lemma LoadOneGrows(cfg: M.Config, w: World, c: CodeSection, def: ProgDef, f: Faults)
    requires Valid(w)
    ensures var made := LoadOne(cfg, w, c, def, f);
      && Valid(made.w) && Grows(w, made.w)
      && (made.err == 0 && made.fd >= 0 ==> OfPinned(made.w, cfg, c, made.fd))
  {
    hide ProgPath;
    var path := ProgPath(cfg, c.name);
    if path in w.pins {
      OpenedGrows(w, w.pins[path]);
    } else {
      CreatedGrows(w, ObjectOf(c));
      PinnedGrows(Created(w, ObjectOf(c)), w.nextFd, path);
      GrowsTwice(w, Created(w, ObjectOf(c)), Pinned(Created(w, ObjectOf(c)), w.nextFd, path));
    }
  }

  lemma {:induction false} LoadFromGrows(cfg: M.Config, cs: seq<CodeSection>, faults: nat -> Faults, w: World, i: nat)
    requires Valid(w) && i <= |cs|
    ensures Valid(LoadFrom(cfg, cs, faults, w, i).w) && Grows(w, LoadFrom(cfg, cs, faults, w, i).w)
    decreases |cs| - i
  {
    hide LoadOne, Valid, Grows;
    GrowsNot(w);
    if i < |cs| && cs[i].def.Some? {
      var def := cs[i].def.value;
      if M.InRange(cfg, def.minKver, def.maxKver) {
        var made := LoadOne(cfg, w, cs[i], def, faults(i));
        LoadOneGrows(cfg, w, cs[i], def, faults(i));
        if made.err == 0 {
          LoadFromGrows(cfg, cs, faults, made.w, i + 1);
          GrowsTwice(w, made.w, LoadFrom(cfg, cs, faults, made.w, i + 1).w);
        }
      } else {
        LoadFromGrows(cfg, cs, faults, w, i + 1);
      }
    }
  }

  /** Loading one program goes on exactly if each call needed succeeds, or if the program is optional
      and only refused; it is pinned exactly if it could be loaded and pinned, whatever fails after
      that, with the type, name and code of its section. */
  lemma LoadOneSucceeds(cfg: M.Config, w: World, c: CodeSection, def: ProgDef, f: Faults)
    requires Valid(w)
    ensures var path, made := ProgPath(cfg, c.name), LoadOne(cfg, w, c, def, f);
      && (made.err == 0 <==>
            if path in w.pins then f.get == 0
            else if f.load != 0 then def.optional
            else f.pin == 0 && f.chmod == 0 && f.chown == 0)
      && (made.err != 0 ==>
            made.err ==
              if path in w.pins || f.load != 0 then -1
              else if f.pin != 0 then M.Minus(f.pin)
              else if f.chmod != 0 then M.Minus(f.chmod)
              else M.Minus(f.chown))
      && (path in made.w.pins <==> path in w.pins || (f.load == 0 && f.pin == 0))
      && (path in made.w.pins && path !in w.pins ==>
            made.w.objects[made.w.pins[path]] == ProgObject(c.kind, c.name, c.insns))
  {
    hide ProgPath;
    LoadOneGrows(cfg, w, c, def, f);
  }

  predicate OfPinned(w: World, cfg: M.Config, c: CodeSection, fd: int) {
    var path := ProgPath(cfg, c.name);
    path in w.pins && fd in w.fds && w.fds[fd] == w.pins[path]
  }

  // ---- the code ----

  method OneProgram(k: Kernel, cfg: M.Config, c: CodeSection, def: ProgDef, f: Faults) returns (err: int, fd: int)
    requires Valid(k.State())
    modifies k
    ensures M.Made(k.State(), err, fd) == LoadOne(cfg, old(k.State()), c, def, f)
  {
    hide Before;
    var name := Before(c.name, '$');
    var reuse := false;
    var progPinLoc := "/sys/fs/bpf/" + cfg.prefix + "prog_" + cfg.objName + "_" + name;
    var savedErrno;
    if progPinLoc in k.pins {
      OpenedGrows(k.State(), k.pins[progPinLoc]);
      fd, savedErrno := k.ObjGet(progPinLoc, f.get);
      reuse := true;
    } else {
      CreatedGrows(k.State(), ObjectOf(c));
      fd, savedErrno := k.Create(ObjectOf(c), f.load);
      if fd < 0 {
        if def.optional {
          return 0, -1;
        }
      }
    }
    if fd < 0 {
      return fd, -1;
    }
    if !reuse {
      var ret := k.Pin(fd, progPinLoc, f.pin);
      if ret != 0 {
        return M.Minus(ret), -1;
      }
      if f.chmod != 0 {
        return M.Minus(f.chmod), -1;
      }
      if f.chown != 0 {
        return M.Minus(f.chown), -1;
      }
    }
    err := 0;
  }

  method LoadCodeSections(k: Kernel, cfg: M.Config, cs: seq<CodeSection>, faults: nat -> Faults)
    returns (ret: int, fds: seq<int>)
    requires Valid(k.State())
    modifies k
    ensures Progs(k.State(), ret, fds) == LoadedSections(cfg, cs, faults, old(k.State()))
  {
    hide LoadOne, ProgPath;
    fds := [];
    if cfg.kvers == 0 {
      return -EINVAL, fds;
    }
    var i := 0;
    PrependNothing(LoadFrom(cfg, cs, faults, k.State(), 0));
    while i < |cs|
      invariant 0 <= i <= |cs| && Valid(k.State())
      invariant LoadFrom(cfg, cs, faults, old(k.State()), 0) == Prepend(fds, LoadFrom(cfg, cs, faults, k.State(), i))
    {
      assert fds + [] == fds;
      if cs[i].def == None {
        return -EINVAL, fds;
      }
      var def := cs[i].def.value;
      if cfg.kvers < def.minKver || cfg.kvers >= def.maxKver {
        PrependTwice(fds, [-1], LoadFrom(cfg, cs, faults, k.State(), i + 1));
        fds := fds + [-1];
        i := i + 1;
        continue;
      }
      LoadOneGrows(cfg, k.State(), cs[i], def, faults(i));
      var err, fd := OneProgram(k, cfg, cs[i], def, faults(i));
      if err != 0 {
        return err, fds;
      }
      PrependTwice(fds, [fd], LoadFrom(cfg, cs, faults, k.State(), i + 1));
      fds := fds + [fd];
      i := i + 1;
    }
    assert fds + [] == fds;
    ret := 0;
  }

  lemma PrependNothing(p: Progs)
    ensures Prepend([], p) == p
  {
    assert [] + p.fds == p.fds;
  }

  lemma PrependTwice(a: seq<int>, b: seq<int>, p: Progs)
    ensures Prepend(a, Prepend(b, p)) == Prepend(a + b, p)
  {
    assert a + (b + p.fds) == a + b + p.fds;
  }

  // ---- which variant owns a path ----

  predicate Wanted(cfg: M.Config, c: CodeSection) {
    c.def.Some? && c.def.value.minKver <= cfg.kvers < c.def.value.maxKver
  }

  predicate Variant(cfg: M.Config, c: CodeSection, path: string) {
    Wanted(cfg, c) && ProgPath(cfg, c.name) == path
  }

  /** The first variant in range that the kernel accepts. */
  function Owner(cfg: M.Config, cs: seq<CodeSection>, faults: nat -> Faults, path: string, i: nat): (n: nat)
    requires i <= |cs|
    ensures i <= n <= |cs|
    ensures n < |cs| ==> Variant(cfg, cs[n], path) && faults(n).load == 0
    ensures forall j :: i <= j < n && Variant(cfg, cs[j], path) ==> faults(j).load != 0
    decreases |cs| - i
  {
    if i == |cs| || (Variant(cfg, cs[i], path) && faults(i).load == 0) then i else Owner(cfg, cs, faults, path, i + 1)
  }

  /** Before the owner every variant is an optional one without a descriptor; from there on every
      variant's descriptor is one of the pinned program. */
  predicate OwnedFrom(p: Progs, cfg: M.Config, cs: seq<CodeSection>, path: string, i: nat, owner: nat) {
    && |p.fds| == |cs| - i
    && forall j :: i <= j < |cs| && Variant(cfg, cs[j], path) ==>
         if j < owner then p.fds[j - i] == -1 && cs[j].def.value.optional
         else OfPinned(p.w, cfg, cs[j], p.fds[j - i])
  }

  /** Of the variants of a program the first that is in range and loads owns the path; a path that
      was taken stays with its program. */
  lemma {:induction false} FirstVariantOwns(cfg: M.Config, cs: seq<CodeSection>, faults: nat -> Faults, w: World,
      i: nat, path: string)
    requires Valid(w) && i <= |cs| && LoadFrom(cfg, cs, faults, w, i).ret == 0
    ensures var p := LoadFrom(cfg, cs, faults, w, i);
      var owner := if path in w.pins then i else Owner(cfg, cs, faults, path, i);
      && Valid(p.w) && Grows(w, p.w) && OwnedFrom(p, cfg, cs, path, i, owner)
      && (path !in w.pins ==> (path in p.w.pins <==> owner < |cs|))
      && (path !in w.pins && owner < |cs| ==>
            && p.w.pins[path] in p.w.objects
            && p.w.objects[p.w.pins[path]] == ProgObject(cs[owner].kind, cs[owner].name, cs[owner].insns))
    decreases |cs| - i
  {
    hide LoadOne, ProgPath, OfPinned, Grows, Valid, OwnedFrom;
    GrowsNot(w);
    var owner := if path in w.pins then i else Owner(cfg, cs, faults, path, i);
    if i == |cs| {
      NothingOwned(cfg, cs, w, path);
    } else if Wanted(cfg, cs[i]) {
      var made := LoadOne(cfg, w, cs[i], cs[i].def.value, faults(i));
      LoadOneGrows(cfg, w, cs[i], cs[i].def.value, faults(i));
      LoadOneExactly(cfg, w, cs[i], cs[i].def.value, faults(i), path);
      FirstVariantOwns(cfg, cs, faults, made.w, i + 1, path);
      var rest := LoadFrom(cfg, cs, faults, made.w, i + 1);
      GrowsTwice(w, made.w, rest.w);
      Stays(made.w, rest.w, cfg, cs[i], made.fd, path);
      var owner' := if path in made.w.pins then i + 1 else Owner(cfg, cs, faults, path, i + 1);
      OwnedBefore(rest, made.fd, cfg, cs, path, i, owner, owner');
    } else {
      FirstVariantOwns(cfg, cs, faults, w, i + 1, path);
      var owner' := if path in w.pins then i + 1 else Owner(cfg, cs, faults, path, i + 1);
      OwnedBefore(LoadFrom(cfg, cs, faults, w, i + 1), -1, cfg, cs, path, i, owner, owner');
    }
  }

  lemma NothingOwned(cfg: M.Config, cs: seq<CodeSection>, w: World, path: string)
    ensures OwnedFrom(Progs(w, 0, []), cfg, cs, path, |cs|, |cs|)
  {
  }

  lemma OwnedBefore(p: Progs, fd: int, cfg: M.Config, cs: seq<CodeSection>, path: string, i: nat, owner: nat,
      owner': nat)
    requires i < |cs| && OwnedFrom(p, cfg, cs, path, i + 1, owner')
    requires owner' == owner || (owner == i && owner' == i + 1)
    requires Variant(cfg, cs[i], path) ==>
      if i < owner then fd == -1 && cs[i].def.value.optional else OfPinned(p.w, cfg, cs[i], fd)
    ensures OwnedFrom(Prepend([fd], p), cfg, cs, path, i, owner)
  {
    hide ProgPath, OfPinned;
  }

  lemma LoadOneExactly(cfg: M.Config, w: World, c: CodeSection, def: ProgDef, f: Faults, path: string)
    requires Valid(w) && LoadOne(cfg, w, c, def, f).err == 0
    ensures var made := LoadOne(cfg, w, c, def, f);
      && (path in w.pins ==> path in made.w.pins)
      && (path !in w.pins ==> (path in made.w.pins <==> ProgPath(cfg, c.name) == path && f.load == 0))
      && (path !in w.pins && path in made.w.pins ==>
            made.w.pins[path] in made.w.objects && made.w.objects[made.w.pins[path]] == ObjectOf(c))
      && (ProgPath(cfg, c.name) == path ==>
            if path in made.w.pins then made.fd >= 0 else made.fd == -1 && def.optional)
  {
    hide ProgPath;
  }

  lemma Stays(w: World, w': World, cfg: M.Config, c: CodeSection, fd: int, path: string)
    requires Grows(w, w')
    ensures OfPinned(w, cfg, c, fd) ==> OfPinned(w', cfg, c, fd)
    ensures path in w.pins ==> path in w'.pins && w'.pins[path] == w.pins[path]
    ensures path in w.pins && w.pins[path] in w.objects ==>
      w.pins[path] in w'.objects && w'.objects[w.pins[path]] == w.objects[w.pins[path]]
  {
    hide ProgPath;
  }

  // ---- running again ----

  /** An optional program that the kernel refuses once and accepts the next time. */
  function Optional(insn: Insn): CodeSection {
    CodeSection(2, "uprobe_a", [insn], [], Some(ProgDef(0, 0xFFFF_FFFF, true)))
  }

  /** The load returns 0, and running it again pins a program: returning 0 is not enough for a rerun
      to create nothing. */
  lemma RerunLoadsMore(cfg: M.Config, insn: Insn, refused: nat -> Faults, accepted: nat -> Faults, w: World)
    requires Valid(w) && cfg.kvers < 0xFFFF_FFFF && ProgPath(cfg, "uprobe_a") !in w.pins
    requires refused(0) == NO_FAULTS.(load := EINVAL) && accepted(0) == NO_FAULTS
    ensures var cs := [Optional(insn)];
      && LoadFrom(cfg, cs, refused, w, 0).ret == 0 && LoadFrom(cfg, cs, refused, w, 0).w == w
      && LoadFrom(cfg, cs, accepted, w, 0).ret == 0 && LoadFrom(cfg, cs, accepted, w, 0).w.pins != w.pins
  {
    hide LoadFrom, ProgPath;
    var c := Optional(insn);
    RefusedOnce(cfg, c, refused, w);
    RerunExactly(cfg, [c], accepted, w);
    assert Wanted(cfg, [c][0]);
    var path := ProgPath(cfg, c.name);
    FirstVariantOwns(cfg, [c], accepted, w, 0, path);
    assert Owner(cfg, [c], accepted, path, 0) == 0;
  }

  lemma RefusedOnce(cfg: M.Config, c: CodeSection, faults: nat -> Faults, w: World)
    requires Valid(w) && Wanted(cfg, c) && c.def.value.optional && faults(0).load != 0
    requires ProgPath(cfg, c.name) !in w.pins
    ensures LoadFrom(cfg, [c], faults, w, 0).ret == 0 && LoadFrom(cfg, [c], faults, w, 0).w == w
  {
    hide ProgPath;
    assert LoadFrom(cfg, [c], faults, w, 1) == Progs(w, 0, []);
  }

  /** No path of a program is one of a map. */
  lemma PathsDiffer(cfg: M.Config, name: string)
    ensures !(M.MapPrefix(cfg) <= ProgPath(cfg, name))
  {
    var at := |"/sys/fs/bpf/" + cfg.prefix|;
    assert ProgPath(cfg, name)[at] == 'p' && M.MapPrefix(cfg)[at] == 'm';
  }

  predicate AllPinned(w: World, cfg: M.Config, cs: seq<CodeSection>) {
    forall j :: 0 <= j < |cs| && Wanted(cfg, cs[j]) ==> ProgPath(cfg, cs[j].name) in w.pins
  }

  /** Every program in range has a descriptor: not even an optional one failed. */
  predicate FullySuccessful(p: Progs, cfg: M.Config, cs: seq<CodeSection>) {
    p.ret == 0 && |p.fds| == |cs| && forall j :: 0 <= j < |cs| && Wanted(cfg, cs[j]) ==> p.fds[j] != -1
  }

  lemma {:induction false} Unchanged(cfg: M.Config, cs: seq<CodeSection>, faults: nat -> Faults, w: World, i: nat)
    requires Valid(w) && i <= |cs| && AllPinned(w, cfg, cs)
    requires forall j: nat :: j < |cs| ==> faults(j).get == 0 && cs[j].def.Some?
    ensures var p := LoadFrom(cfg, cs, faults, w, i);
      p.ret == 0 && p.w.pins == w.pins && p.w.objects == w.objects && p.w.nextId == w.nextId
    decreases |cs| - i
  {
    hide ProgPath;
    if i < |cs| {
      if Wanted(cfg, cs[i]) {
        LoadOneGrows(cfg, w, cs[i], cs[i].def.value, faults(i));
        Unchanged(cfg, cs, faults, LoadOne(cfg, w, cs[i], cs[i].def.value, faults(i)).w, i + 1);
      } else {
        Unchanged(cfg, cs, faults, w, i + 1);
      }
    }
  }

  lemma {:induction false} NothingFails(cfg: M.Config, cs: seq<CodeSection>, faults: nat -> Faults, w: World, i: nat)
    requires Valid(w) && i <= |cs|
    requires forall j: nat :: j < |cs| ==> faults(j) == NO_FAULTS && cs[j].def.Some?
    ensures LoadFrom(cfg, cs, faults, w, i).ret == 0
    decreases |cs| - i
  {
    hide ProgPath;
    if i < |cs| {
      if Wanted(cfg, cs[i]) {
        LoadOneGrows(cfg, w, cs[i], cs[i].def.value, faults(i));
        NothingFails(cfg, cs, faults, LoadOne(cfg, w, cs[i], cs[i].def.value, faults(i)).w, i + 1);
      } else {
        NothingFails(cfg, cs, faults, w, i + 1);
      }
    }
  }

  /** Where no system call fails, loading adds nothing exactly if every program in range is pinned. */
  lemma RerunExactly(cfg: M.Config, cs: seq<CodeSection>, faults: nat -> Faults, w: World)
    requires Valid(w)
    requires forall j: nat :: j < |cs| ==> faults(j) == NO_FAULTS && cs[j].def.Some?
    ensures var p := LoadFrom(cfg, cs, faults, w, 0);
      p.ret == 0 && (p.w.pins == w.pins && p.w.objects == w.objects <==> AllPinned(w, cfg, cs))
  {
    hide LoadFrom, ProgPath;
    NothingFails(cfg, cs, faults, w, 0);
    if AllPinned(w, cfg, cs) {
      Unchanged(cfg, cs, faults, w, 0);
    } else {
      var j :| 0 <= j < |cs| && Wanted(cfg, cs[j]) && ProgPath(cfg, cs[j].name) !in w.pins;
      var path := ProgPath(cfg, cs[j].name);
      FirstVariantOwns(cfg, cs, faults, w, 0, path);
      assert Variant(cfg, cs[j], path) && faults(j).load == 0;
      assert Owner(cfg, cs, faults, path, 0) <= j;
    }
  }

  lemma {:induction false} AllDefined(cfg: M.Config, cs: seq<CodeSection>, faults: nat -> Faults, w: World, i: nat)
    requires Valid(w) && i <= |cs| && LoadFrom(cfg, cs, faults, w, i).ret == 0
    ensures forall j :: i <= j < |cs| ==> cs[j].def.Some?
    decreases |cs| - i
  {
    hide LoadOne, ProgPath;
    if i < |cs| && cs[i].def.Some? {
      if Wanted(cfg, cs[i]) {
        LoadOneGrows(cfg, w, cs[i], cs[i].def.value, faults(i));
        AllDefined(cfg, cs, faults, LoadOne(cfg, w, cs[i], cs[i].def.value, faults(i)).w, i + 1);
      } else {
        AllDefined(cfg, cs, faults, w, i + 1);
      }
    }
  }

  /** Without a kernel version, or where the first program has no definition, loading fails with EINVAL
      and does nothing; it succeeds only where every program has one. */
  lemma {:induction false} FailsWithEinval(cfg: M.Config, cs: seq<CodeSection>, faults: nat -> Faults, w: World)
    requires Valid(w)
    ensures cfg.kvers == 0 ==> LoadedSections(cfg, cs, faults, w) == Progs(w, -22, [])
    ensures cs != [] && cs[0].def == None ==> LoadedSections(cfg, cs, faults, w) == Progs(w, -22, [])
    ensures LoadedSections(cfg, cs, faults, w).ret == 0 ==> cfg.kvers != 0 && forall c :: c in cs ==> c.def.Some?
  {
    hide LoadOne;
    if LoadedSections(cfg, cs, faults, w).ret == 0 {
      AllDefined(cfg, cs, faults, w, 0);
    }
  }

  /** The same programs, whatever their code is linked to. */
  predicate SamePrograms(cs: seq<CodeSection>, cs': seq<CodeSection>) {
    |cs| == |cs'| && forall j :: 0 <= j < |cs| ==> cs'[j].name == cs[j].name && cs'[j].def == cs[j].def
  }

  /** A fully successful load leaves every program in range pinned, so that running it again,
      whatever has been loaded since, creates nothing. */
  lemma RerunCreatesNothing(cfg: M.Config, cs: seq<CodeSection>, faults: nat -> Faults, before: World,
      cs': seq<CodeSection>, again: nat -> Faults, later: World)
    requires Valid(before) && Valid(later) && FullySuccessful(LoadFrom(cfg, cs, faults, before, 0), cfg, cs)
    requires Grows(LoadFrom(cfg, cs, faults, before, 0).w, later) && SamePrograms(cs, cs')
    requires forall j: nat :: j < |cs| ==> again(j).get == 0
    ensures var p := LoadFrom(cfg, cs', again, later, 0);
      p.ret == 0 && p.w.pins == later.pins && p.w.objects == later.objects && p.w.nextId == later.nextId
  {
    hide LoadFrom, ProgPath;
    var p := LoadFrom(cfg, cs, faults, before, 0);
    AllDefined(cfg, cs, faults, before, 0);
    forall j | 0 <= j < |cs| && Wanted(cfg, cs[j]) ensures ProgPath(cfg, cs[j].name) in later.pins {
      var path := ProgPath(cfg, cs[j].name);
      FirstVariantOwns(cfg, cs, faults, before, 0, path);
      assert Variant(cfg, cs[j], path) && p.fds[j - 0] != -1;
      assert OfPinned(p.w, cfg, cs[j], p.fds[j]);
    }
    Unchanged(cfg, cs', again, later, 0);
  }
}
