/** loadProg and loadAllElfObjects: an object's sections are read, its maps made, its code linked to
    them and loaded; objects are loaded one after the other. */
module ObjectLoader {
  import opened Options
  import opened ElfSymbols
  import opened ElfCode
  import opened PinnedObjects
  import M = MapLoader
  import opened Relocation
  import P = ProgLoader

  /** A location and the kernel. */
  datatype Site = Site(prefix: string, allowed: Option<seq<nat>>, fuse: nat, kvers: nat, pageSize: nat)

  /** What the run-time decides for one object: how its symbols get sorted and what fails. */
  datatype Env = Env(sorted: seq<Sym>, maps: nat -> M.Faults, progs: nat -> P.Faults)

  /** A directory entry; the contents are None if the file cannot be opened. */
  datatype File = File(path: string, contents: Option<Elf>, env: Env)

  datatype Loaded = Loaded(w: World, exit: M.Exit)

  /** The file name without what follows its last period, and then without what follows its last @. */
  function ObjName(path: string): string {
    P.Before(P.Before(path[P.FindLast(path, '/') + 1..], '.'), '@')
  }

  /** The object foo, from a file foo.o or foo@tag.o. */
  lemma ObjNameExactly(dir: string, stem: string, tag: string)
    requires '/' !in stem && '@' !in stem && '/' !in tag && '@' !in tag
    ensures ObjName(dir + "/" + stem + ".o") == stem
    ensures ObjName(dir + "/" + stem + "@" + tag + ".o") == stem
  {
    hide ObjName;
    ObjectFile(dir, stem, stem);
    P.BeforeLast("", '@', stem);
    ObjectFile(dir, stem + "@" + tag, stem);
    P.BeforeLast(stem, '@', tag);
    assert dir + "/" + (stem + "@" + tag) + ".o" == dir + "/" + stem + "@" + tag + ".o";
  }

  lemma ObjectFile(dir: string, file: string, name: string)
    requires '/' !in file
    ensures P.Before(file, '@') == name ==> ObjName(dir + "/" + file + ".o") == name
  {
    hide P.Before;
    var path, rest := dir + "/" + file + ".o", file + ".o";
    assert path[|dir|] == '/' && forall k :: |dir| < k < |path| ==> path[k] == rest[k - |dir| - 1];
    assert path[|dir| + 1..] == rest == file + ['.'] + "o";
    P.BeforeLast(file, '.', "o");
  }

  function ConfigOf(site: Site, path: string): M.Config {
    M.Config(site.prefix, ObjName(path), site.kvers, site.pageSize)
  }

  /** The maps of a probe are pinned where user space looks for them: map output_buf of Binder.o, say,
      at the path that BinderTransaction names. */
  lemma UserSpacePath(site: Site, dir: string, probe: string, name: string, def: MapDef)
    requires site.prefix == "uprobestats/" && !def.shared && '/' !in probe && '@' !in probe
    ensures var pin := M.MapPath(ConfigOf(site, dir + "/" + probe + ".o"), name, def);
      && pin == "/sys/fs/bpf/uprobestats/map_" + probe + "_" + name
      && (probe == "Binder" && name == "output_buf" ==> pin == "/sys/fs/bpf/uprobestats/map_Binder_output_buf")
  {
    hide ObjName;
    ObjNameExactly(dir, probe, "");
    assert "/sys/fs/bpf/" + "uprobestats/" + "map_" == "/sys/fs/bpf/uprobestats/map_";
  }

  // ---- specification ----

  /** What the source takes for granted of an object and never checks: there is a header behind
      every code section, no more names than definitions, and every relocation is in bounds.  That
      definitions are missing where their section is says what the fields of an object are. */
  predicate WellFormed(site: Site, e: Elf, sorted: seq<Sym>) {
    && Readable(e, sorted, site.fuse)
    && M.MapsIndexable(e, sorted)
    && Consistent(e)
    && AllInBounds(CodeSections(e, sorted, site.allowed, site.fuse).1)
  }

  function CodeIn(site: Site, e: Elf, env: Env): (int, seq<CodeSection>)
    requires WellFormed(site, e, env.sorted)
  {
    CodeSections(e, env.sorted, site.allowed, site.fuse)
  }

  function MapsFor(site: Site, path: string, e: Elf, env: Env, w: World): (m: M.Maps)
    requires Valid(w) && WellFormed(site, e, env.sorted)
    ensures Valid(m.w) && Grows(w, m.w)
    ensures m.exit == M.Returned(0) && MapNames(e, env.sorted).0 ==> |m.fds| == |MapNames(e, env.sorted).1|
  {
    MapsGrow(ConfigOf(site, path), e, env, w);
    M.CreatedMaps(ConfigOf(site, path), e, env.sorted, env.maps, w)
  }

  lemma MapsGrow(cfg: M.Config, e: Elf, env: Env, w: World)
    requires Valid(w) && M.MapsIndexable(e, env.sorted) && Consistent(e)
    ensures var m := M.CreatedMaps(cfg, e, env.sorted, env.maps, w);
      && Valid(m.w) && Grows(w, m.w)
      && (m.exit == M.Returned(0) && MapNames(e, env.sorted).0 ==> |m.fds| == |MapNames(e, env.sorted).1|)
  {
    hide M.MakeMaps, Grows, Valid, MapNames, Consistent;
    GrowsNot(w);
    NoMapNames(e, env.sorted);
    if e.maps.Defs? && MapNames(e, env.sorted).0 {
      M.OneFdPerName(cfg, MapNames(e, env.sorted).1, e.maps.all, env.maps, w, 0);
    }
  }

  /** The code as it is given to the kernel. */
  function LinkedCode(site: Site, path: string, e: Elf, env: Env, w: World): seq<CodeSection>
    requires Valid(w) && WellFormed(site, e, env.sorted)
    requires MapsFor(site, path, e, env, w).exit == M.Returned(0)
  {
    Linked(e, env.sorted, MapsFor(site, path, e, env, w).fds, CodeIn(site, e, env).1)
  }

  function Load(site: Site, path: string, e: Elf, env: Env, w: World): (l: Loaded)
    requires Valid(w) && WellFormed(site, e, env.sorted)
    ensures l.exit == M.Returned(0) ==> MapsFor(site, path, e, env, w).exit == M.Returned(0)
  {
    if e.license == None then Loaded(w, M.Returned(-2))
    else if CodeIn(site, e, env).0 != 0 then Loaded(w, M.Returned(CodeIn(site, e, env).0))
    else
      var m := MapsFor(site, path, e, env, w);
      if m.exit != M.Returned(0) then Loaded(m.w, m.exit)
      else
        var p := P.LoadedSections(ConfigOf(site, path), LinkedCode(site, path, e, env, w), env.progs, m.w);
        Loaded(p.w, M.Returned(p.ret))
  }

  predicate FileOk(site: Site, f: File) {
    f.contents.Some? ==> WellFormed(site, f.contents.value, f.env.sorted)
  }

  function LoadFile(site: Site, f: File, w: World): Loaded
    requires Valid(w) && FileOk(site, f)
  {
    if f.contents == None then Loaded(w, M.Returned(-1)) else Load(site, f.path, f.contents.value, f.env, w)
  }

  predicate IsObject(f: File) { |f.path| >= 2 && f.path[|f.path| - 2..] == ".o" }

  predicate IsCritical(f: File) { f.contents.Some? && f.contents.value.critical }

  /** After the first n entries: the error of the last critical object that failed, or 0. */
  function LoadFiles(site: Site, files: seq<File>, n: nat, w: World): (l: Loaded)
    requires Valid(w) && n <= |files| && forall i :: 0 <= i < |files| ==> FileOk(site, files[i])
    ensures Valid(l.w) && Grows(w, l.w)
  {
    if n == 0 then GrowsNot(w); Loaded(w, M.Returned(0))
    else
      var before := LoadFiles(site, files, n - 1, w);
      if before.exit == M.Aborted || !IsObject(files[n - 1]) then before
      else
        var l := LoadFile(site, files[n - 1], before.w);
        LoadFileGrows(site, files[n - 1], before.w);
        GrowsTwice(w, before.w, l.w);
        var passed := l.exit == M.Returned(0) || (l.exit.Returned? && !IsCritical(files[n - 1]));
        Loaded(l.w, if passed then before.exit else l.exit)
  }

  /** Loading an object, however it ends, leaves every pin and every pinned object as it was. */
  lemma LoadFileGrows(site: Site, f: File, w: World)
    requires Valid(w) && FileOk(site, f)
    ensures Valid(LoadFile(site, f, w).w) && Grows(w, LoadFile(site, f, w).w)
  {
    hide Grows, Valid, CodeSections, P.LoadFrom, M.CreatedMaps, Linked;
    GrowsNot(w);
    if f.contents.Some? {
      var e, env := f.contents.value, f.env;
      if e.license != None && CodeIn(site, e, env).0 == 0 {
        var m := MapsFor(site, f.path, e, env, w);
        if m.exit == M.Returned(0) {
          var p := P.LoadedSections(ConfigOf(site, f.path), LinkedCode(site, f.path, e, env, w), env.progs, m.w);
          ProgsGrow(ConfigOf(site, f.path), LinkedCode(site, f.path, e, env, w), env.progs, m.w);
          GrowsTwice(w, m.w, p.w);
        }
      }
    }
  }

  lemma ProgsGrow(cfg: M.Config, cs: seq<CodeSection>, faults: nat -> P.Faults, w: World)
    requires Valid(w)
    ensures Valid(P.LoadedSections(cfg, cs, faults, w).w) && Grows(w, P.LoadedSections(cfg, cs, faults, w).w)
  {
    hide Grows, Valid;
    GrowsNot(w);
    P.LoadFromGrows(cfg, cs, faults, w, 0);
  }

  // ---- the code ----

  /** The code sections' contents, each in a buffer of its own. */
  method Buffers(cs: seq<CodeSection>) returns (data: seq<array<Insn>>)
    ensures |data| == |cs|
    ensures forall k :: 0 <= k < |cs| ==> fresh(data[k]) && data[k][..] == cs[k].insns
    ensures forall i, j :: 0 <= i < j < |data| ==> data[i] != data[j]
  {
    data := [];
    while |data| < |cs|
      invariant |data| <= |cs|
      invariant forall k :: 0 <= k < |data| ==> fresh(data[k]) && data[k][..] == cs[k].insns
      invariant forall i, j :: 0 <= i < j < |data| ==> data[i] != data[j]
      decreases |cs| - |data|
    {
      var insns := cs[|data|].insns;
      var a := new Insn[|insns|](i requires 0 <= i < |insns| => insns[i]);
      assert a[..] == insns;
      data := data + [a];
    }
  }

  /** The link step: what the buffers hold afterwards is the linked code. */
  method LinkCode(e: Elf, sorted: seq<Sym>, mapFds: seq<int>, cs: seq<CodeSection>) returns (linked: seq<CodeSection>)
    requires AllInBounds(cs) && (MapNames(e, sorted).0 ==> |MapNames(e, sorted).1| <= |mapFds|)
    ensures linked == Linked(e, sorted, mapFds, cs)
  {
    hide RelocatedSections, MapNames;
    var data := Buffers(cs);
    ApplyMapRelo(e, sorted, mapFds, cs, data);
    ghost var goal := Linked(e, sorted, mapFds, cs);
    linked := [];
    while |linked| < |cs|
      invariant |linked| <= |cs|
      invariant forall k :: 0 <= k < |cs| ==> data[k][..] == goal[k].insns
      invariant forall k :: 0 <= k < |linked| ==> linked[k] == goal[k]
      decreases |cs| - |linked|
    {
      var n := |linked|;
      ghost var names := MapNames(e, sorted);
      if names.0 {
        OnlyInsnsChange(Link(e.syms, names.1, mapFds), cs, n);
      }
      assert goal[n] == cs[n].(insns := goal[n].insns);
      linked := linked + [cs[n].(insns := data[n][..])];
    }
  }

  method LoadProg(k: Kernel, site: Site, f: File) returns (exit: M.Exit, isCritical: bool)
    requires Valid(k.State()) && FileOk(site, f)
    modifies k
    ensures Loaded(k.State(), exit) == LoadFile(site, f, old(k.State()))
    ensures isCritical == IsCritical(f)
  {
    hide CodeSections, M.CreatedMaps, Linked, P.LoadFrom, Grows, MapNames;
    isCritical := false;
    if f.contents == None {
      return M.Returned(-1), isCritical;
    }
    var e := f.contents.value;
    isCritical := e.critical;
    if e.license == None {
      return M.Returned(-2), isCritical;
    }
    var ret, cs := ReadCodeSections(e, f.env.sorted, site.allowed, site.fuse);
    if ret != 0 {
      return M.Returned(ret), isCritical;
    }
    var cfg := ConfigOf(site, f.path);
    MapsGrow(cfg, e, f.env, k.State());
    var mapFds;
    exit, mapFds := M.CreateMaps(k, cfg, e, f.env.sorted, f.env.maps);
    if exit != M.Returned(0) {
      return exit, isCritical;
    }
    var linked := LinkCode(e, f.env.sorted, mapFds, cs);
    var fds;
    ret, fds := P.LoadCodeSections(k, cfg, linked, f.env.progs);
    exit := M.Returned(ret);
  }

  method LoadAllElfObjects(k: Kernel, site: Site, files: seq<File>) returns (exit: M.Exit)
    requires Valid(k.State()) && forall i :: 0 <= i < |files| ==> FileOk(site, files[i])
    modifies k
    ensures Loaded(k.State(), exit) == LoadFiles(site, files, |files|, old(k.State()))
  {
    hide LoadFile, Grows, Valid;
    var retVal := 0;
    var i := 0;
    while i < |files|
      invariant 0 <= i <= |files|
      invariant LoadFiles(site, files, i, old(k.State())) == Loaded(k.State(), M.Returned(retVal))
    {
      if IsObject(files[i]) {
        var ret, critical := LoadProg(k, site, files[i]);
        if ret == M.Aborted {
          AbortedStays(site, files, i + 1, old(k.State()));
          return ret;
        }
        if ret != M.Returned(0) {
          if critical {
            retVal := ret.ret;
          }
        }
      }
      i := i + 1;
    }
    exit := M.Returned(retVal);
  }

  lemma {:induction false} AbortedStays(site: Site, files: seq<File>, n: nat, w: World)
    requires Valid(w) && n <= |files| && forall i :: 0 <= i < |files| ==> FileOk(site, files[i])
    requires LoadFiles(site, files, n, w).exit == M.Aborted
    ensures LoadFiles(site, files, |files|, w) == LoadFiles(site, files, n, w)
    decreases |files| - n
  {
    hide LoadFile, Grows, Valid;
    if n < |files| {
      AbortedStays(site, files, n + 1, w);
    }
  }

  // ---- what holds of any sequence of loads ----

  /** The exit status speaks of critical objects alone: it is 0 exactly if each of them loaded. */
  lemma {:induction false} CriticalDecides(site: Site, files: seq<File>, n: nat, w: World)
    requires Valid(w) && n <= |files| && forall i :: 0 <= i < |files| ==> FileOk(site, files[i])
    requires LoadFiles(site, files, n, w).exit != M.Aborted
    ensures LoadFiles(site, files, n, w).exit == M.Returned(0) <==>
      forall i: nat :: i < n && CriticalObject(files[i]) ==>
        LoadFile(site, files[i], LoadFiles(site, files, i, w).w).exit == M.Returned(0)
  {
    hide LoadFile, Grows, Valid;
    if n > 0 {
      CriticalDecides(site, files, n - 1, w);
    }
  }

  predicate CriticalObject(f: File) {
    && |f.path| >= 2 && f.path[|f.path| - 2..] == ".o"
    && f.contents.Some? && f.contents.value.critical
  }

  /** And of several that failed it is the last whose error is returned. */
  lemma {:induction false} LastErrorCounts(site: Site, files: seq<File>, i: nat, n: nat, w: World)
    requires Valid(w) && i < n <= |files| && forall i :: 0 <= i < |files| ==> FileOk(site, files[i])
    requires LoadFiles(site, files, n, w).exit != M.Aborted && CriticalObject(files[i])
    requires LoadFile(site, files[i], LoadFiles(site, files, i, w).w).exit != M.Returned(0)
    requires forall k: nat :: i < k < n && CriticalObject(files[k]) ==>
      LoadFile(site, files[k], LoadFiles(site, files, k, w).w).exit == M.Returned(0)
    ensures LoadFiles(site, files, n, w).exit == LoadFile(site, files[i], LoadFiles(site, files, i, w).w).exit
  {
    hide LoadFile, Grows, Valid;
    if i < n - 1 {
      LastErrorCounts(site, files, i, n - 1, w);
    } else {
      NotAborted(site, files, i, w);
    }
  }

  lemma NotAborted(site: Site, files: seq<File>, i: nat, w: World)
    requires Valid(w) && i < |files| && forall i :: 0 <= i < |files| ==> FileOk(site, files[i])
    requires LoadFiles(site, files, i + 1, w).exit != M.Aborted
    ensures LoadFiles(site, files, i, w).exit != M.Aborted
  {
    hide LoadFile, Grows, Valid;
  }

  /** An object without a license, or with code sections that cannot be read, leaves the kernel as it
      was; programs are loaded only where all maps were made, and the result is that of the phase
      that ended the load. */
  lemma PhasesInOrder(site: Site, path: string, e: Elf, env: Env, w: World)
    requires Valid(w) && WellFormed(site, e, env.sorted)
    ensures var l := Load(site, path, e, env, w);
      && (l.exit == M.Returned(0) <==>
            && e.license.Some? && CodeIn(site, e, env).0 == 0
            && MapsFor(site, path, e, env, w).exit == M.Returned(0)
            && P.LoadedSections(ConfigOf(site, path), LinkedCode(site, path, e, env, w), env.progs,
                                MapsFor(site, path, e, env, w).w).ret == 0)
      && (e.license == None ==> l == Loaded(w, M.Returned(-2)))
      && (e.license.Some? && CodeIn(site, e, env).0 != 0 ==> l == Loaded(w, M.Returned(CodeIn(site, e, env).0)))
      && (forall id :: id in l.w.objects && id !in w.objects && l.w.objects[id].ProgObject? ==>
            MapsFor(site, path, e, env, w).exit == M.Returned(0))
  {
    hide CodeSections, M.MakeMap, Linked, P.LoadFrom, Valid, Grows, MapNames, ConfigOf;
    MapsAreMaps(ConfigOf(site, path), e, env, w);
  }

  lemma MapsAreMaps(cfg: M.Config, e: Elf, env: Env, w: World)
    requires Valid(w) && M.MapsIndexable(e, env.sorted)
    ensures var objects := M.CreatedMaps(cfg, e, env.sorted, env.maps, w).w.objects;
      forall id :: id in objects && id !in w.objects ==> objects[id].MapObject?
  {
    hide M.MakeMaps, Valid, MapNames;
    if e.maps.Defs? && MapNames(e, env.sorted).0 {
      M.MakesMapsOnly(cfg, MapNames(e, env.sorted).1, e.maps.all, env.maps, w, 0);
    }
  }

  /** Pins are write-once: over any sequence of objects, however each load ends, whatever was pinned
      before entry n is still pinned at the end, to the same object. */
  lemma {:induction false} PinsAreWriteOnce(site: Site, files: seq<File>, n: nat, m: nat, w: World)
    requires Valid(w) && n <= m <= |files| && forall i :: 0 <= i < |files| ==> FileOk(site, files[i])
    ensures Grows(LoadFiles(site, files, n, w).w, LoadFiles(site, files, m, w).w)
  {
    hide LoadFile, Grows, Valid;
    var before := LoadFiles(site, files, n, w);
    if n == m {
      GrowsNot(before.w);
    } else {
      PinsAreWriteOnce(site, files, n, m - 1, w);
      var last := LoadFiles(site, files, m - 1, w);
      LoadFileGrows(site, files[m - 1], last.w);
      GrowsTwice(before.w, last.w, LoadFile(site, files[m - 1], last.w).w);
    }
  }

  /** Two sorted tables from which the same is read. */
  predicate ReadsAlike(site: Site, e: Elf, a: seq<Sym>, b: seq<Sym>) {
    && (Readable(e, a, site.fuse) <==> Readable(e, b, site.fuse))
    && (Readable(e, a, site.fuse) && Readable(e, b, site.fuse) ==>
          CodeSections(e, a, site.allowed, site.fuse) == CodeSections(e, b, site.allowed, site.fuse))
    && MapNames(e, a) == MapNames(e, b)
  }

  lemma StaysWellFormed(site: Site, e: Elf, a: seq<Sym>, b: seq<Sym>)
    requires WellFormed(site, e, a) && ReadsAlike(site, e, a, b)
    ensures WellFormed(site, e, b)
  {
    hide CodeSections, MapNames, Readable;
  }

  lemma ReloadAlike(site: Site, path: string, e: Elf, env: Env, before: World, again: Env, later: World)
    requires Valid(before) && Valid(later)
    requires WellFormed(site, e, env.sorted) && WellFormed(site, e, again.sorted)
    requires ReadsAlike(site, e, env.sorted, again.sorted)
    requires Load(site, path, e, env, before).exit == M.Returned(0)
    requires P.FullySuccessful(
      P.LoadedSections(ConfigOf(site, path), LinkedCode(site, path, e, env, before), env.progs,
        MapsFor(site, path, e, env, before).w),
      ConfigOf(site, path), LinkedCode(site, path, e, env, before))
    requires Grows(Load(site, path, e, env, before).w, later)
    requires forall j: nat :: again.maps(j).get == 0 && again.progs(j).get == 0
    ensures var l := Load(site, path, e, again, later);
      l.exit == M.Returned(0) && l.w.pins == later.pins && l.w.objects == later.objects && l.w.nextId == later.nextId
  {
    hide CodeSections, M.CreatedMaps, Linked, P.LoadFrom, P.FullySuccessful, Grows, Valid, Readable, MapNames;
    var cfg := ConfigOf(site, path);
    var first, second := MapsFor(site, path, e, env, before), MapsFor(site, path, e, again, later);
    var linked := LinkedCode(site, path, e, env, before);
    ProgsGrow(cfg, linked, env.progs, first.w);
    GrowsTwice(first.w, P.LoadedSections(cfg, linked, env.progs, first.w).w, later);
    MapsAgain(cfg, e, env, before, again, later);
    GrowsTwice(P.LoadedSections(cfg, linked, env.progs, first.w).w, later, second.w);
    var relinked := LinkedCode(site, path, e, again, later);
    SameLinked(e, env.sorted, first.fds, again.sorted, second.fds, CodeIn(site, e, env).1);
    P.RerunCreatesNothing(cfg, linked, env.progs, first.w, relinked, again.progs, second.w);
  }

  lemma MapsAgain(cfg: M.Config, e: Elf, env: Env, before: World, again: Env, later: World)
    requires Valid(before) && Valid(later) && MapNames(e, again.sorted) == MapNames(e, env.sorted)
    requires M.MapsIndexable(e, env.sorted)
    requires M.CreatedMaps(cfg, e, env.sorted, env.maps, before).exit == M.Returned(0)
    requires Grows(M.CreatedMaps(cfg, e, env.sorted, env.maps, before).w, later)
    requires forall j: nat :: again.maps(j).get == 0
    ensures M.MapsIndexable(e, again.sorted)
    ensures var m := M.CreatedMaps(cfg, e, again.sorted, again.maps, later);
      m.exit == M.Returned(0) && m.w.pins == later.pins && m.w.objects == later.objects && m.w.nextId == later.nextId
  {
    hide M.MakeMaps, Grows, Valid, MapNames;
    if e.maps.Defs? {
      M.RerunCreatesNothing(cfg, MapNames(e, env.sorted).1, e.maps.all, env.maps, before, later, again.maps);
    }
  }

  lemma SameLinked(e: Elf, sorted: seq<Sym>, fds: seq<int>, sorted': seq<Sym>, fds': seq<int>, cs: seq<CodeSection>)
    requires AllInBounds(cs) && MapNames(e, sorted') == MapNames(e, sorted)
    requires MapNames(e, sorted).0 ==> |MapNames(e, sorted).1| <= |fds| && |MapNames(e, sorted).1| <= |fds'|
    ensures P.SamePrograms(Linked(e, sorted, fds, cs), Linked(e, sorted', fds', cs))
  {
    hide RelocatedSections, MapNames;
    var names := MapNames(e, sorted);
    if names.0 {
      forall j | 0 <= j < |cs|
        ensures Linked(e, sorted', fds', cs)[j].name == Linked(e, sorted, fds, cs)[j].name
        ensures Linked(e, sorted', fds', cs)[j].def == Linked(e, sorted, fds, cs)[j].def
      {
        OnlyInsnsChange(Link(e.syms, names.1, fds), cs, j);
        OnlyInsnsChange(Link(e.syms, names.1, fds'), cs, j);
      }
    }
  }

  /** The definitions in a section, if there is one of the name, are labelled one by one. */
  ghost predicate SectionLabelled(e: Elf, section: string, labels: seq<string>, size: nat) {
    var index := SectionIndex(SectionNames(e), section);
    size > 0 && (index >= 0 ==> LabelsSection(e.syms, index, None, labels, size))
  }

  lemma LabelsRead(e: Elf, sorted: seq<Sym>, section: string, labels: seq<string>, size: nat)
    requires SortOf(sorted, e.syms) && SectionLabelled(e, section, labels, size)
    ensures SectionSymNames(SectionNames(e), sorted, section, None) ==
      if SectionIndex(SectionNames(e), section) >= 0 then (true, labels) else (false, [])
  {
    hide SectionNames;
    if SectionIndex(SectionNames(e), section) >= 0 {
      NamesAreLabels(SectionNames(e), e.syms, sorted, section, None, labels, size);
    }
  }

  /** From a labelled object whose code sections each have one lowest function, or none, every sort
      reads the same. */
  lemma SortsReadAlike(site: Site, e: Elf, a: seq<Sym>, b: seq<Sym>, maps: seq<string>, mapSize: nat,
      progs: seq<string>, progSize: nat)
    requires SortOf(a, e.syms) && SortOf(b, e.syms) && LowestFunctions(e, site.fuse)
    requires SectionLabelled(e, "maps", maps, mapSize) && SectionLabelled(e, "progs", progs, progSize)
    ensures ReadsAlike(site, e, a, b)
  {
    hide SortOf, SectionSymNames, SectionLabelled, LowestFunctions, CodeFrom;
    LabelsRead(e, a, "maps", maps, mapSize);
    LabelsRead(e, b, "maps", maps, mapSize);
    LabelsRead(e, a, "progs", progs, progSize);
    LabelsRead(e, b, "progs", progs, progSize);
    if Readable(e, a, site.fuse) && e.progs.Defs? {
      CodeFromAlike(e, a, b, DefNames(e, a).1, e.progs.all, site.allowed, site.fuse, 0);
    }
  }

  /** Loading a labelled object again after it loaded without any program failing, with anything
      loaded in between and symbols of equal value sorted either way, succeeds and creates no map,
      no program and no pin. */
  lemma ReloadCreatesNothing(site: Site, path: string, e: Elf, env: Env, before: World, again: Env, later: World,
      maps: seq<string>, mapSize: nat, progs: seq<string>, progSize: nat)
    requires Valid(before) && Valid(later) && WellFormed(site, e, env.sorted)
    requires SortOf(env.sorted, e.syms) && SortOf(again.sorted, e.syms) && LowestFunctions(e, site.fuse)
    requires SectionLabelled(e, "maps", maps, mapSize) && SectionLabelled(e, "progs", progs, progSize)
    requires Load(site, path, e, env, before).exit == M.Returned(0)
    requires P.FullySuccessful(
      P.LoadedSections(ConfigOf(site, path), LinkedCode(site, path, e, env, before), env.progs,
        MapsFor(site, path, e, env, before).w),
      ConfigOf(site, path), LinkedCode(site, path, e, env, before))
    requires Grows(Load(site, path, e, env, before).w, later)
    requires forall j: nat :: again.maps(j).get == 0 && again.progs(j).get == 0
    ensures WellFormed(site, e, again.sorted)
    ensures var l := Load(site, path, e, again, later);
      l.exit == M.Returned(0) && l.w.pins == later.pins && l.w.objects == later.objects && l.w.nextId == later.nextId
  {
    hide WellFormed, SortOf, LowestFunctions, SectionLabelled, ReadsAlike, Load, P.FullySuccessful, Grows, Valid;
    SortsReadAlike(site, e, env.sorted, again.sorted, maps, mapSize, progs, progSize);
    StaysWellFormed(site, e, env.sorted, again.sorted);
    ReloadAlike(site, path, e, env, before, again, later);
  }

  // ---- from a symbol to the map ----

  /** Definitions of maps labelled by the symbols of their section, one each. */
  ghost predicate MapsLabelled(e: Elf, labels: seq<string>, size: nat) {
    && e.maps.Defs? && |labels| == |e.maps.all| && size > 0
    && SectionIndex(SectionNames(e), "maps") >= 0
    && LabelsSection(e.syms, SectionIndex(SectionNames(e), "maps"), None, labels, size)
  }

  /** Section x is followed by the section of its relocations, as its name says. */
  predicate HasRelocations(e: Elf, x: nat) {
    && x + 1 < |e.sections| && e.sections[x].name.Some?
    && e.sections[x + 1].name == Some(".rel" + e.sections[x].name.value)
  }

  /** Relocation i of section x is the only one of its instruction, which loads a 64-bit immediate,
      and it names map j, which has its name to itself. */
  predicate RefersTo(e: Elf, x: nat, i: nat, labels: seq<string>, j: nat) {
    && HasRelocations(e, x) && j < |labels|
    && var insns, rels := e.sections[x].insns, e.sections[x + 1].rels;
    && i < |rels| && rels[i].sym < |e.syms| && e.syms[rels[i].sym].name == Some(labels[j])
    && (forall m :: 0 <= m < |labels| && m != j ==> labels[m] != labels[j])
    && (forall m :: 0 <= m < |rels| && m != i ==> rels[m].offset / 8 != rels[i].offset / 8)
    && rels[i].offset / 8 < |insns| && insns[rels[i].offset / 8].code == 0x18
  }

  /** Every relocation of a code section before x refers to a symbol with a name. */
  predicate ResolvableBefore(e: Elf, fuse: nat, x: nat) {
    forall t: nat, r :: t < x && HasRelocations(e, t) && IsCode(e, t, fuse) && r in e.sections[t + 1].rels ==>
      r.sym < |e.syms| && e.syms[r.sym].name.Some?
  }

  predicate AllResolvable(e: Elf, cs: seq<CodeSection>) {
    forall t, r :: 0 <= t < |cs| && r in cs[t].rels ==> r.sym < |e.syms| && e.syms[r.sym].name.Some?
  }

  /** From a relocation in the file to the kernel: the program of section x has the section's name and
      type, and the instruction it belongs to is given to the
      kernel with, for as long as the kernel lives, a descriptor of the map that is pinned under the
      name of the relocation's symbol, with the attributes of that name's definition, or -1 if that
      map is not for this kernel. */
  lemma LinkedToItsMap(site: Site, path: string, e: Elf, env: Env, w: World, labels: seq<string>, size: nat,
      x: nat, i: nat, j: nat, later: World)
    requires Valid(w) && WellFormed(site, e, env.sorted) && SortOf(env.sorted, e.syms) && MapsLabelled(e, labels, size)
    requires MapsFor(site, path, e, env, w).exit == M.Returned(0) && Grows(MapsFor(site, path, e, env, w).w, later)
    requires ProgsReadable(e, env.sorted) && Orderly(e, env.sorted, site.allowed, site.fuse)
    requires x < Stop(e, env.sorted, site.fuse, 0) && IsCode(e, x, site.fuse)
    requires RefersTo(e, x, i, labels, j) && ResolvableBefore(e, site.fuse, x + 1)
    ensures var linked, s := LinkedCode(site, path, e, env, w), CodeCount(e, site.fuse, 0, x);
      var insns, at := e.sections[x].insns, e.sections[x + 1].rels[i].offset / 8;
      var fd := MapsFor(site, path, e, env, w).fds;
      && |fd| == |labels| && s < |linked| && |linked[s].insns| == |insns|
      && IsSection(linked[s].(insns := insns), e, site.fuse, x)
      && linked[s].insns[at] == insns[at].(imm := fd[j], src := 1)
      && M.FdFor(later, ConfigOf(site, path), labels[j], e.maps.all[j], fd[j])
  {
    hide CodeSections, M.MakeMaps, Grows, Valid, M.OfPinned, Names, Select, RelocatedSections, SectionNames;
    hide Orderly, ResolvableBefore, IsCode, CodeCount, ConfigOf, ProgsReadable;
    var cfg := ConfigOf(site, path);
    NamesAreLabels(SectionNames(e), e.syms, env.sorted, "maps", None, labels, size);
    M.OneFdPerName(cfg, labels, e.maps.all, env.maps, w, 0);
    var m := MapsFor(site, path, e, env, w);
    assert M.FdFor(m.w, cfg, labels[j], e.maps.all[j], m.fds[j - 0]);
    if M.Wanted(cfg, e.maps.all[j]) {
      M.StaysPinned(m.w, later, cfg, labels[j], e.maps.all[j], m.fds[j]);
    }
    LinkedInsn(Link(e.syms, labels, m.fds), site, e, env.sorted, x, i, j);
  }

  lemma LinkedInsn(l: Link, site: Site, e: Elf, sorted: seq<Sym>, x: nat, i: nat, j: nat)
    requires Matched(l) && |l.names| == |l.fds| && l.syms == e.syms && WellFormed(site, e, sorted)
    requires ProgsReadable(e, sorted) && Orderly(e, sorted, site.allowed, site.fuse)
    requires x < Stop(e, sorted, site.fuse, 0) && IsCode(e, x, site.fuse)
    requires RefersTo(e, x, i, l.names, j) && ResolvableBefore(e, site.fuse, x + 1)
    ensures var cs, s := CodeSections(e, sorted, site.allowed, site.fuse).1, CodeCount(e, site.fuse, 0, x);
      var insns, at := e.sections[x].insns, e.sections[x + 1].rels[i].offset / 8;
      && s < |RelocatedSections(l, cs)| && |RelocatedSections(l, cs)[s].insns| == |insns|
      && IsSection(RelocatedSections(l, cs)[s].(insns := insns), e, site.fuse, x)
      && RelocatedSections(l, cs)[s].insns[at] == insns[at].(imm := l.fds[j], src := 1)
  {
    hide CodeSections, Orderly, Relocated, RelocatedSections, Readable, ResolvableBefore, IsCode, CodeCount;
    var cs, s := CodeSections(e, sorted, site.allowed, site.fuse).1, CodeCount(e, site.fuse, 0, x);
    SectionRead(e, sorted, site.allowed, site.fuse, x);
    ReadResolvable(e, sorted, site.allowed, site.fuse, x);
    forall t | 0 <= t <= s ensures Resolvable(l, cs[t].rels) == |cs[t].rels| {
      assert cs[..s + 1][t] == cs[t];
      ResolvesAll(l, cs[t].rels);
    }
    SectionAt(l, cs, s);
    OnlyInsnsChange(l, cs, s);
    assert RelocatedSections(l, cs)[s].(insns := cs[s].insns) == cs[s];
    var rels := e.sections[x + 1].rels;
    assert rels[..|rels|] == rels;
    var at := rels[i].offset / 8;
    InsnExactly(l, cs[s].insns, rels, at);
    assert TargetsLast(l, rels, at, i, j);
  }

  /** The sections read up to section x have no other relocations than these. */
  lemma ReadResolvable(e: Elf, sorted: seq<Sym>, allowed: Option<seq<nat>>, fuse: nat, x: nat)
    requires Readable(e, sorted, fuse) && ProgsReadable(e, sorted) && Orderly(e, sorted, allowed, fuse)
    requires x < Stop(e, sorted, fuse, 0) && IsCode(e, x, fuse) && e.sections[x].insns != []
    requires ResolvableBefore(e, fuse, x + 1)
    ensures var cs, s := CodeSections(e, sorted, allowed, fuse).1, CodeCount(e, fuse, 0, x);
      s < |cs| && AllResolvable(e, cs[..s + 1])
  {
    hide CodeFrom, CodeOf, Orderly, IsCode, HasFunction, CodeIsNotLast, DefNames, CodeCount, AllResolvable;
    var names, defs, stop := DefNames(e, sorted).1, e.progs.all, Stop(e, sorted, fuse, 0);
    ReadFrom(e, sorted, names, defs, allowed, fuse, 0);
    BelowPrefix(e, sorted, names, defs, fuse, 0, x + 1, stop);
    BelowResolvable(e, sorted, names, defs, fuse, 0, x + 1);
    CountSplits(e, fuse, 0, x, x + 1);
    CountFirst(e, fuse, x, x + 1);
    CountFirst(e, fuse, x + 1, x + 1);
    var cs := CodeSections(e, sorted, allowed, fuse).1;
    assert cs == CodeBelow(e, sorted, names, defs, fuse, 0, stop);
    assert cs[..CodeCount(e, fuse, 0, x) + 1] == CodeBelow(e, sorted, names, defs, fuse, 0, x + 1);
  }

  lemma {:induction false} BelowResolvable(e: Elf, sorted: seq<Sym>, names: seq<string>, defs: seq<ProgDef>, fuse: nat,
      i: nat, n: nat)
    requires i <= n <= |e.sections| && |names| <= |defs| && CodeIsNotLast(e, fuse)
    requires forall k :: i <= k < n && IsCode(e, k, fuse) ==> HasFunction(e, sorted, k)
    requires ResolvableBefore(e, fuse, n)
    ensures AllResolvable(e, CodeBelow(e, sorted, names, defs, fuse, i, n))
    decreases n - i
  {
    hide CodeOf, IsCode, HasFunction, CodeIsNotLast, CodeBelow, ResolvableBefore;
    if i < n {
      FirstBelow(e, sorted, names, defs, fuse, i, n);
      BelowResolvable(e, sorted, names, defs, fuse, i + 1, n);
      if IsCode(e, i, fuse) && e.sections[i].insns != [] {
        NotLast(e, fuse, i);
        IsCodeSection(e, sorted, names, defs, fuse, i);
        OneResolvable(e, CodeOf(e, sorted, names, defs, fuse, i), fuse, i, n);
      }
    }
  }

  lemma NotLast(e: Elf, fuse: nat, i: nat)
    requires CodeIsNotLast(e, fuse) && i < |e.sections| && IsCode(e, i, fuse) && e.sections[i].insns != []
    ensures i + 1 < |e.sections|
  {
    hide IsCode;
  }

  lemma OneResolvable(e: Elf, c: CodeSection, fuse: nat, i: nat, n: nat)
    requires i < n <= |e.sections| && IsCode(e, i, fuse) && IsSection(c, e, fuse, i) && ResolvableBefore(e, fuse, n)
    ensures forall r :: r in c.rels ==> r.sym < |e.syms| && e.syms[r.sym].name.Some?
  {
    hide IsCode;
  }

  lemma MapsPinMapPaths(cfg: M.Config, e: Elf, env: Env, w: World, name: string)
    requires Valid(w) && M.MapsIndexable(e, env.sorted) && P.ProgPath(cfg, name) !in w.pins
    ensures P.ProgPath(cfg, name) !in M.CreatedMaps(cfg, e, env.sorted, env.maps, w).w.pins
  {
    hide M.MakeMaps, P.ProgPath, M.MapPrefix, Valid, MapNames;
    P.PathsDiffer(cfg, name);
    if e.maps.Defs? && MapNames(e, env.sorted).0 {
      M.PinsMapPaths(cfg, MapNames(e, env.sorted).1, e.maps.all, env.maps, w, 0);
    }
  }

  /** And what is pinned at a program's path after a successful load, if nothing was pinned there
      before, is the linked code of the first variant in range that the kernel accepts. */
  lemma PinnedProgram(site: Site, path: string, e: Elf, env: Env, w: World, name: string)
    requires Valid(w) && WellFormed(site, e, env.sorted) && Load(site, path, e, env, w).exit == M.Returned(0)
    requires P.ProgPath(ConfigOf(site, path), name) !in w.pins
    ensures var l, linked := Load(site, path, e, env, w), LinkedCode(site, path, e, env, w);
      var pin := P.ProgPath(ConfigOf(site, path), name);
      var owner := P.Owner(ConfigOf(site, path), linked, env.progs, pin, 0);
      && (pin in l.w.pins <==> owner < |linked|)
      && (owner < |linked| ==>
            && l.w.pins[pin] in l.w.objects
            && l.w.objects[l.w.pins[pin]] == ProgObject(linked[owner].kind, linked[owner].name, linked[owner].insns))
  {
    hide CodeSections, M.CreatedMaps, Grows, Valid, Linked, P.LoadFrom, P.ProgPath;
    MapsPinMapPaths(ConfigOf(site, path), e, env, w, name);
    P.FirstVariantOwns(ConfigOf(site, path), LinkedCode(site, path, e, env, w), env.progs,
      MapsFor(site, path, e, env, w).w, 0, P.ProgPath(ConfigOf(site, path), name));
  }
}
