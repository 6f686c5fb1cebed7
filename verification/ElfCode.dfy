/** The code sections of a bpf object, each with the definition of its own program. */
module ElfCode {
  import opened Options
  import opened ElfSymbols

  const LOAD_IMM64: nat := 0x18 // BPF_LD | BPF_IMM | BPF_DW

  /** struct bpf_insn. */
  datatype Insn = Insn(code: nat, dst: nat, src: nat, off: int, imm: int)

  /** Elf64_Rel: a byte offset into the code and an index into the unsorted symbol table. */
  datatype Rel = Rel(offset: nat, sym: nat)

  /** A section, its contents read as instructions and as relocations. */
  datatype Section = Section(name: Option<string>, insns: seq<Insn>, rels: seq<Rel>)

  datatype MapDef = MapDef(
    kind: nat, keySize: nat, valueSize: nat, maxEntries: nat, flags: nat,
    minKver: nat, maxKver: nat, shared: bool, zero: nat)

  datatype ProgDef = ProgDef(minKver: nat, maxKver: nat, optional: bool)

  /** The definitions in a section: it may be absent, or its size may be no multiple of theirs. */
  datatype Defs<+T> = Missing | Malformed | Defs(all: seq<T>)

  datatype Elf = Elf(sections: seq<Section>, syms: seq<Sym>, maps: Defs<MapDef>, progs: Defs<ProgDef>,
    license: Option<string>, critical: bool)

  /** Definitions are missing exactly where no section is named for them. */
  predicate Consistent(e: Elf) {
    && (e.progs.Missing? <==> Some("progs") !in SectionNames(e))
    && (e.maps.Missing? <==> Some("maps") !in SectionNames(e))
  }

  function SectionNames(e: Elf): (names: seq<Option<string>>)
    ensures |names| == |e.sections|
  {
    seq(|e.sections|, i requires 0 <= i < |e.sections| => e.sections[i].name)
  }

  // ---- program types ----

  const UNSPEC: nat := 0

  const SECTION_NAME_TYPES: seq<(string, nat)> := [
    ("kprobe/", 2), ("kretprobe/", 2), ("perf_event/", 7), ("skfilter/", 1), ("tracepoint/", 5),
    ("uprobe/", 2), ("uretprobe/", 2)]

  function TypeIn(table: seq<(string, nat)>, name: string, otherwise: nat): nat {
    if table == [] then otherwise
    else if table[0].0 <= name then table[0].1
    else TypeIn(table[1..], name, otherwise)
  }

  /** fuse is what the kernel says the type of fuse programs is. */
  function SectionType(name: string, fuse: nat): nat {
    TypeIn(SECTION_NAME_TYPES, name, if "fuse/" <= name then fuse else UNSPEC)
  }

  /** The type each name has by its prefix. */
  lemma SectionTypeExactly(name: string, fuse: nat)
    ensures SectionType(name, fuse) ==
      if "kprobe/" <= name || "kretprobe/" <= name then 2
      else if "perf_event/" <= name then 7
      else if "skfilter/" <= name then 1
      else if "tracepoint/" <= name then 5
      else if "uprobe/" <= name || "uretprobe/" <= name then 2
      else if "fuse/" <= name then fuse
      else 0
  {
    var types, otherwise := SECTION_NAME_TYPES, (if "fuse/" <= name then fuse else UNSPEC);
    forall k | 0 <= k < 7
      ensures TypeIn(types[k..], name, otherwise) ==
        if types[k].0 <= name then types[k].1 else TypeIn(types[k + 1..], name, otherwise)
    {
      assert types[k..][0] == types[k] && types[k..][1..] == types[k + 1..];
    }
    assert types[0..] == types && types[7..] == [];
  }

  /** An UNSPEC in the list stands for the type of fuse programs. */
  predicate IsAllowed(kind: nat, allowed: Option<seq<nat>>, fuse: nat) {
    allowed.None? || (kind in allowed.value && kind != UNSPEC) || (UNSPEC in allowed.value && kind == fuse)
  }

  function Underscored(name: string): string {
    seq(|name|, i requires 0 <= i < |name| => if name[i] == '/' then '_' else name[i])
  }

  // ---- readCodeSections ----

  datatype CodeSection = CodeSection(kind: nat, name: string, insns: seq<Insn>, rels: seq<Rel>, def: Option<ProgDef>)

  /** The first definition whose name is that of the function with "_def" behind it. */
  function DefOf(names: seq<string>, defs: seq<ProgDef>, func: string): (r: Option<ProgDef>)
    requires |names| <= |defs|
    ensures r.None? <==> func + "_def" !in names
    ensures r.Some? ==> exists j :: FirstNamed(names, func + "_def", j) && defs[j] == r.value
  {
    if names == [] then None
    else if names[0] == func + "_def" then
      assert FirstNamed(names, func + "_def", 0);
      Some(defs[0])
    else
      var r := DefOf(names[1..], defs[1..], func);
      assert r.Some? ==> exists j :: FirstNamed(names, func + "_def", j) && defs[j] == r.value by {
        if r.Some? {
          var j :| FirstNamed(names[1..], func + "_def", j) && defs[1..][j] == r.value;
          assert FirstNamed(names, func + "_def", j + 1) && defs[j + 1] == r.value;
        }
      }
      r
  }

  predicate FirstNamed(names: seq<string>, name: string, j: int) {
    0 <= j < |names| && names[j] == name && forall i :: 0 <= i < j ==> names[i] != name
  }

  predicate IsCode(e: Elf, i: nat, fuse: nat)
    requires i < |e.sections|
  {
    e.sections[i].name.Some? && SectionType(e.sections[i].name.value, fuse) != UNSPEC
  }

  /** The source reads the header after that of a code section without asking whether there is
      one. */
  predicate CodeIsNotLast(e: Elf, fuse: nat) {
    |e.sections| > 0 && IsCode(e, |e.sections| - 1, fuse) ==> e.sections[|e.sections| - 1].insns == []
  }

  /** The functions of a section: those of the first section with its name. */
  function Functions(e: Elf, sorted: seq<Sym>, i: nat): (bool, seq<string>)
    requires i < |e.sections| && e.sections[i].name.Some?
  {
    SectionSymNames(SectionNames(e), sorted, e.sections[i].name.value, Some(STT_FUNC))
  }

  predicate HasFunction(e: Elf, sorted: seq<Sym>, i: nat)
    requires i < |e.sections| && e.sections[i].name.Some?
  {
    Functions(e, sorted, i).0 && Functions(e, sorted, i).1 != []
  }

  /** The relocations in the section behind, if it is named for that. */
  function RelsOf(e: Elf, i: nat): seq<Rel>
    requires i + 1 < |e.sections| && e.sections[i].name.Some?
  {
    if e.sections[i + 1].name == Some(".rel" + e.sections[i].name.value) then e.sections[i + 1].rels else []
  }

  /** What a code section with a function becomes. */
  function CodeOf(e: Elf, sorted: seq<Sym>, names: seq<string>, defs: seq<ProgDef>, fuse: nat, i: nat): CodeSection
    requires i + 1 < |e.sections| && IsCode(e, i, fuse) && HasFunction(e, sorted, i) && |names| <= |defs|
  {
    var name := e.sections[i].name.value;
    CodeSection(SectionType(name, fuse), Underscored(name), e.sections[i].insns,
      RelsOf(e, i),
      DefOf(names, defs, Functions(e, sorted, i).1[0]))
  }

  /** The outcome of the loop from section i on. */
  function CodeFrom(e: Elf, sorted: seq<Sym>, names: seq<string>, defs: seq<ProgDef>, allowed: Option<seq<nat>>,
      fuse: nat, i: nat): (int, seq<CodeSection>)
    requires i <= |e.sections| && |names| <= |defs| && CodeIsNotLast(e, fuse)
    decreases |e.sections| - i
  {
    if i == |e.sections| then (0, [])
    else if e.sections[i].name == None then (-1, [])
    else if !IsCode(e, i, fuse) then CodeFrom(e, sorted, names, defs, allowed, fuse, i + 1)
    else if !IsAllowed(SectionType(e.sections[i].name.value, fuse), allowed, fuse) then (-1, [])
    else if !HasFunction(e, sorted, i) then (if Functions(e, sorted, i).0 then 0 else -1, [])
    else if e.sections[i].insns == [] then CodeFrom(e, sorted, names, defs, allowed, fuse, i + 1)
    else if e.sections[i + 1].name == None then (-1, [])
    else Prepend([CodeOf(e, sorted, names, defs, fuse, i)], CodeFrom(e, sorted, names, defs, allowed, fuse, i + 1))
  }

  function Prepend(cs: seq<CodeSection>, r: (int, seq<CodeSection>)): (int, seq<CodeSection>) {
    (r.0, cs + r.1)
  }

  function MapNames(e: Elf, sorted: seq<Sym>): (bool, seq<string>) {
    SectionSymNames(SectionNames(e), sorted, "maps", None)
  }

  lemma NoMapNames(e: Elf, sorted: seq<Sym>)
    requires Consistent(e)
    ensures e.maps.Missing? ==> !MapNames(e, sorted).0
  {
    hide Names, Select;
    if SectionIndex(SectionNames(e), "maps") >= 0 {
      assert SectionNames(e)[SectionIndex(SectionNames(e), "maps")] == Some("maps");
    }
  }

  lemma PrependNothing(r: (int, seq<CodeSection>))
    ensures Prepend([], r) == r
  {
    assert [] + r.1 == r.1;
  }

  lemma PrependTwice(a: seq<CodeSection>, b: seq<CodeSection>, r: (int, seq<CodeSection>))
    ensures Prepend(a, Prepend(b, r)) == Prepend(a + b, r)
  {
    assert a + (b + r.1) == a + b + r.1;
  }

  function DefNames(e: Elf, sorted: seq<Sym>): (bool, seq<string>) {
    SectionSymNames(SectionNames(e), sorted, "progs", None)
  }

  /** No more names than definitions: the source indexes one by the position in the other. */
  predicate Readable(e: Elf, sorted: seq<Sym>, fuse: nat) {
    CodeIsNotLast(e, fuse) && (e.progs.Defs? ==> |DefNames(e, sorted).1| <= |e.progs.all|)
  }

  function CodeSections(e: Elf, sorted: seq<Sym>, allowed: Option<seq<nat>>, fuse: nat): (int, seq<CodeSection>)
    requires Readable(e, sorted, fuse)
  {
    match e.progs
    case Missing => (-2, [])
    case Malformed => (-1, [])
    case Defs(defs) =>
      var names := DefNames(e, sorted);
      if defs != [] && !names.0 then (-1, []) else CodeFrom(e, sorted, names.1, defs, allowed, fuse, 0)
  }

  /** Without a section of program definitions, with one of an odd size, or with definitions whose
      names cannot be read, nothing is read, and the call fails. */
  lemma NeedsDefinitions(e: Elf, sorted: seq<Sym>, allowed: Option<seq<nat>>, fuse: nat)
    requires Readable(e, sorted, fuse) && Consistent(e)
    ensures Some("progs") !in SectionNames(e) ==> CodeSections(e, sorted, allowed, fuse) == (-2, [])
    ensures e.progs.Malformed? ==> CodeSections(e, sorted, allowed, fuse) == (-1, [])
    ensures e.progs.Defs? && e.progs.all != [] && !SectionSymNames(SectionNames(e), sorted, "progs", None).0 ==>
      CodeSections(e, sorted, allowed, fuse) == (-1, [])
  {
    hide CodeFrom, SectionSymNames, SectionNames;
  }

  method FindDef(names: seq<string>, defs: seq<ProgDef>, func: string) returns (def: Option<ProgDef>)
    requires |names| <= |defs|
    ensures def == DefOf(names, defs, func)
  {
    def := None;
    var j := 0;
    while j < |names|
      invariant 0 <= j <= |names| && def == None
      invariant DefOf(names, defs, func) == DefOf(names[j..], defs[j..], func)
    {
      assert names[j..][1..] == names[j + 1..] && defs[j..][1..] == defs[j + 1..];
      if names[j] == func + "_def" {
        def := Some(defs[j]);
        break;
      }
      j := j + 1;
    }
  }

  method ReadCodeSections(e: Elf, sorted: seq<Sym>, allowed: Option<seq<nat>>, fuse: nat)
    returns (ret: int, cs: seq<CodeSection>)
    requires Readable(e, sorted, fuse)
    ensures (ret, cs) == CodeSections(e, sorted, allowed, fuse)
  {
    hide SectionType, IsAllowed, Underscored, SectionSymNames, DefOf;
    cs := [];
    if e.progs.Missing? {
      return -2, cs;
    }
    if e.progs.Malformed? {
      return -1, cs;
    }
    var pd := e.progs.all;
    var progDefNames;
    ret, progDefNames := GetSectionSymNames(SectionNames(e), sorted, "progs", None);
    if pd != [] && ret != 0 {
      return ret, cs;
    }
    var i := 0;
    PrependNothing(CodeFrom(e, sorted, progDefNames, pd, allowed, fuse, 0));
    while i < |e.sections|
      invariant 0 <= i <= |e.sections|
      invariant CodeSections(e, sorted, allowed, fuse) ==
        Prepend(cs, CodeFrom(e, sorted, progDefNames, pd, allowed, fuse, i))
    {
      assert cs + [] == cs;
      var name := e.sections[i].name;
      if name == None {
        return -1, cs;
      }
      var ptype := SectionType(name.value, fuse);
      if ptype == UNSPEC {
        i := i + 1;
        continue;
      }
      if !IsAllowed(ptype, allowed, fuse) {
        return -1, cs;
      }
      var csSymNames;
      ret, csSymNames := GetSectionSymNames(SectionNames(e), sorted, name.value, Some(STT_FUNC));
      if ret != 0 || csSymNames == [] {
        return ret, cs;
      }
      var def := FindDef(progDefNames, pd, csSymNames[0]);
      if e.sections[i].insns != [] {
        var next := e.sections[i + 1].name;
        if next == None {
          return -1, cs;
        }
        var rels := if next.value == ".rel" + name.value then e.sections[i + 1].rels else [];
        var section := CodeSection(ptype, Underscored(name.value), e.sections[i].insns, rels, def);
        assert section == CodeOf(e, sorted, progDefNames, pd, fuse, i);
        PrependTwice(cs, [section], CodeFrom(e, sorted, progDefNames, pd, allowed, fuse, i + 1));
        cs := cs + [section];
      }
      i := i + 1;
    }
    assert cs + [] == cs;
    ret := 0;
  }

  // ---- what is read from a well-formed object ----

  /** Every name is readable and every code section permitted. */
  predicate Orderly(e: Elf, sorted: seq<Sym>, allowed: Option<seq<nat>>, fuse: nat) {
    forall i :: 0 <= i < |e.sections| ==>
      && e.sections[i].name.Some?
      && (IsCode(e, i, fuse) ==>
            && IsAllowed(SectionType(e.sections[i].name.value, fuse), allowed, fuse)
            && Functions(e, sorted, i).0)
  }

  /** The first code section without a function, or the number of sections. */
  function Stop(e: Elf, sorted: seq<Sym>, fuse: nat, i: nat): (n: nat)
    requires i <= |e.sections|
    ensures i <= n <= |e.sections|
    ensures forall k :: i <= k < n && IsCode(e, k, fuse) ==> HasFunction(e, sorted, k)
    ensures n < |e.sections| ==> IsCode(e, n, fuse) && !HasFunction(e, sorted, n)
    decreases |e.sections| - i
  {
    if i == |e.sections| || (IsCode(e, i, fuse) && !HasFunction(e, sorted, i)) then i
    else Stop(e, sorted, fuse, i + 1)
  }

  /** A code section is read exactly if it has instructions and no code section up to it lacks a
      function: such a section ends the reading, and the call still succeeds. */
  lemma {:induction false} ReadFrom(e: Elf, sorted: seq<Sym>, names: seq<string>, defs: seq<ProgDef>,
      allowed: Option<seq<nat>>, fuse: nat, i: nat)
    requires i <= |e.sections| && |names| <= |defs| && CodeIsNotLast(e, fuse) && Orderly(e, sorted, allowed, fuse)
    ensures var (ret, cs) := CodeFrom(e, sorted, names, defs, allowed, fuse, i);
      && ret == 0
      && cs == CodeBelow(e, sorted, names, defs, fuse, i, Stop(e, sorted, fuse, i))
    decreases |e.sections| - i
  {
    hide SectionType, IsAllowed, Underscored, SectionSymNames, DefOf, SectionNames;
    if i < |e.sections| && !(IsCode(e, i, fuse) && !HasFunction(e, sorted, i)) {
      ReadFrom(e, sorted, names, defs, allowed, fuse, i + 1);
    }
  }

  /** The sections from i to n that are code with instructions, in order. */
  function CodeBelow(e: Elf, sorted: seq<Sym>, names: seq<string>, defs: seq<ProgDef>, fuse: nat, i: nat, n: nat)
    : (cs: seq<CodeSection>)
    requires i <= n <= |e.sections| && |names| <= |defs| && CodeIsNotLast(e, fuse)
    requires forall k :: i <= k < n && IsCode(e, k, fuse) ==> HasFunction(e, sorted, k)
    ensures forall k :: i <= k < n && IsCode(e, k, fuse) && e.sections[k].insns != [] ==>
      CodeOf(e, sorted, names, defs, fuse, k) in cs
    ensures |cs| == CodeCount(e, fuse, i, n)
    decreases n - i
  {
    if i == n then []
    else
      var rest := CodeBelow(e, sorted, names, defs, fuse, i + 1, n);
      if IsCode(e, i, fuse) && e.sections[i].insns != [] then [CodeOf(e, sorted, names, defs, fuse, i)] + rest else rest
  }

  function CodeCount(e: Elf, fuse: nat, i: nat, n: nat): nat
    requires i <= n <= |e.sections|
    decreases n - i
  {
    if i == n then 0
    else (if IsCode(e, i, fuse) && e.sections[i].insns != [] then 1 else 0) + CodeCount(e, fuse, i + 1, n)
  }

  lemma {:induction false} CountSplits(e: Elf, fuse: nat, i: nat, m: nat, n: nat)
    requires i <= m <= n <= |e.sections|
    ensures CodeCount(e, fuse, i, n) == CodeCount(e, fuse, i, m) + CodeCount(e, fuse, m, n)
    decreases m - i
  {
    if i < m {
      CountSplits(e, fuse, i + 1, m, n);
    }
  }

  /** On the list, where an UNSPEC stands for the type of fuse programs; without a list every type
      is. */
  ghost predicate Listed(kind: nat, allowed: Option<seq<nat>>, fuse: nat) {
    allowed.Some? ==> exists a :: a in allowed.value && kind == if a == 0 then fuse else a
  }

  ghost predicate Permitted(e: Elf, allowed: Option<seq<nat>>, fuse: nat, k: nat)
    requires k < |e.sections|
  {
    && e.sections[k].name.Some?
    && (IsCode(e, k, fuse) ==> Listed(SectionType(e.sections[k].name.value, fuse), allowed, fuse))
  }

  /** Every section from i to n is permitted, and has a function if it is code. */
  ghost predicate PassedOver(e: Elf, sorted: seq<Sym>, allowed: Option<seq<nat>>, fuse: nat, i: nat, n: nat)
    requires i <= n <= |e.sections|
  {
    forall k :: i <= k < n ==> Permitted(e, allowed, fuse, k) && (IsCode(e, k, fuse) ==> HasFunction(e, sorted, k))
  }

  /** A permitted code section whose function symbols can be read, and are none. */
  ghost predicate EndsReading(e: Elf, sorted: seq<Sym>, allowed: Option<seq<nat>>, fuse: nat, n: nat)
    requires n < |e.sections|
  {
    Permitted(e, allowed, fuse, n) && IsCode(e, n, fuse) && Functions(e, sorted, n) == (true, [])
  }

  ghost predicate ReadsUpTo(e: Elf, sorted: seq<Sym>, allowed: Option<seq<nat>>, fuse: nat, i: nat, n: int) {
    && i <= n <= |e.sections| && PassedOver(e, sorted, allowed, fuse, i, n)
    && (n < |e.sections| ==> EndsReading(e, sorted, allowed, fuse, n))
  }

  ghost predicate Reads(e: Elf, sorted: seq<Sym>, allowed: Option<seq<nat>>, fuse: nat, i: nat) {
    exists n :: ReadsUpTo(e, sorted, allowed, fuse, i, n)
  }

  lemma ListedIsAllowed(kind: nat, allowed: Option<seq<nat>>, fuse: nat)
    requires kind != UNSPEC
    ensures IsAllowed(kind, allowed, fuse) <==> Listed(kind, allowed, fuse)
  {
    if allowed.Some? && kind in allowed.value {
      assert kind == if kind == 0 then fuse else kind;
    } else if allowed.Some? && UNSPEC in allowed.value && kind == fuse {
      assert kind == if UNSPEC == 0 then fuse else UNSPEC;
    }
  }

  /** Reading succeeds exactly if nothing is wrong with any section up to the end, or up to a code
      section without a function, and fails with -1 otherwise; either way nothing that is not
      permitted has been read. */
  lemma {:induction false} ReadsExactly(e: Elf, sorted: seq<Sym>, names: seq<string>, defs: seq<ProgDef>,
      allowed: Option<seq<nat>>, fuse: nat, i: nat)
    requires i <= |e.sections| && |names| <= |defs| && CodeIsNotLast(e, fuse)
    ensures var (ret, cs) := CodeFrom(e, sorted, names, defs, allowed, fuse, i);
      && ret == (if Reads(e, sorted, allowed, fuse, i) then 0 else -1)
      && forall c :: c in cs ==> c.kind != 0 && Listed(c.kind, allowed, fuse)
    decreases |e.sections| - i
  {
    hide SectionType, IsAllowed, Underscored, SectionSymNames, DefOf, SectionNames, Listed, RelsOf;
    var (ret, cs) := CodeFrom(e, sorted, names, defs, allowed, fuse, i);
    if i == |e.sections| {
      assert ReadsUpTo(e, sorted, allowed, fuse, i, i);
    } else {
      if IsCode(e, i, fuse) {
        ListedIsAllowed(SectionType(e.sections[i].name.value, fuse), allowed, fuse);
      }
      ReadsExactly(e, sorted, names, defs, allowed, fuse, i + 1);
      PassOne(e, sorted, allowed, fuse, i);
    }
  }

  lemma PassOne(e: Elf, sorted: seq<Sym>, allowed: Option<seq<nat>>, fuse: nat, i: nat)
    requires i < |e.sections|
    ensures Reads(e, sorted, allowed, fuse, i) <==>
      || EndsReading(e, sorted, allowed, fuse, i)
      || (&& Permitted(e, allowed, fuse, i) && (IsCode(e, i, fuse) ==> HasFunction(e, sorted, i))
          && Reads(e, sorted, allowed, fuse, i + 1))
  {
    hide Functions, SectionType, Listed, EndsReading;
    var next := i + 1;
    if n :| ReadsUpTo(e, sorted, allowed, fuse, i, n) {
      if i < n {
        assert ReadsUpTo(e, sorted, allowed, fuse, next, n);
      }
    }
    if EndsReading(e, sorted, allowed, fuse, i) {
      assert ReadsUpTo(e, sorted, allowed, fuse, i, i);
    }
    if Permitted(e, allowed, fuse, i) && (IsCode(e, i, fuse) ==> HasFunction(e, sorted, i)) {
      if n :| ReadsUpTo(e, sorted, allowed, fuse, next, n) {
        assert ReadsUpTo(e, sorted, allowed, fuse, i, n);
      }
    }
  }

  /** Nothing is left unread exactly if no code with instructions lies at or behind the first code
      section without a function. */
  lemma AllRead(e: Elf, sorted: seq<Sym>, names: seq<string>, defs: seq<ProgDef>, allowed: Option<seq<nat>>, fuse: nat)
    requires |names| <= |defs| && CodeIsNotLast(e, fuse) && Orderly(e, sorted, allowed, fuse)
    ensures |CodeFrom(e, sorted, names, defs, allowed, fuse, 0).1| == CodeCount(e, fuse, 0, |e.sections|)
      <==> CodeCount(e, fuse, Stop(e, sorted, fuse, 0), |e.sections|) == 0
  {
    ReadFrom(e, sorted, names, defs, allowed, fuse, 0);
    CountSplits(e, fuse, 0, Stop(e, sorted, fuse, 0), |e.sections|);
  }

  /** Two code sections, of which only the second has a function, and its definition. */
  function CutShort(insn: Insn): Elf {
    Elf([Section(Some("uprobe/a"), [insn], []), Section(Some("uprobe/b"), [insn], []), Section(Some("progs"), [], [])],
      [Sym(Some("b"), 0, 1, STT_FUNC), Sym(Some("b_def"), 0, 2, STT_OBJECT)],
      Missing, Defs([ProgDef(0, 0xFFFF_FFFF, false)]), Some("GPL"), false)
  }

  lemma UprobeType(name: string, fuse: nat)
    requires "uprobe/" <= name
    ensures SectionType(name, fuse) == 2
  {
    hide SectionType;
    SectionTypeExactly(name, fuse);
    assert name[0] == 'u';
  }

  /** The second is a code section with a function and instructions, and is not read; the call
      succeeds. */
  lemma SilentlyCutShort(insn: Insn, fuse: nat)
    ensures var e := CutShort(insn);
      && Consistent(e) && SortOf(e.syms, e.syms)
      && IsCode(e, 1, fuse) && HasFunction(e, e.syms, 1) && e.sections[1].insns == [insn]
      && Readable(e, e.syms, fuse) && CodeSections(e, e.syms, None, fuse) == (0, [])
  {
    hide SectionType, Names, Select, SectionIndex;
    var e := CutShort(insn);
    UprobeType("uprobe/a", fuse);
    UprobeType("uprobe/b", fuse);
    ProgsIsNoCode(fuse);
    CutShortNames(e, insn);
    assert SectionNames(e)[2] == Some("progs");
  }

  lemma ProgsIsNoCode(fuse: nat)
    ensures SectionType("progs", fuse) == UNSPEC
  {
    hide SectionType;
    SectionTypeExactly("progs", fuse);
    assert |"progs"| == 5 && "fuse/"[0] != "progs"[0];
  }

  lemma CutShortNames(e: Elf, insn: Insn)
    requires e == CutShort(insn)
    ensures var names := SectionNames(e);
      && SectionSymNames(names, e.syms, "uprobe/a", Some(STT_FUNC)) == (true, [])
      && SectionSymNames(names, e.syms, "uprobe/b", Some(STT_FUNC)) == (true, ["b"])
      && SectionSymNames(names, e.syms, "progs", None) == (true, ["b_def"])
      && Some("maps") !in names
  {
    hide SectionIndex, Names, Select;
    assert SectionNames(e) == [Some("uprobe/a"), Some("uprobe/b"), Some("progs")];
    CutShortSections(SectionNames(e));
    var f, d := e.syms[0], e.syms[1];
    assert e.syms == [f] + [d];
    CutShortSymbols(f, d);
  }

  lemma CutShortSections(names: seq<Option<string>>)
    requires names == [Some("uprobe/a"), Some("uprobe/b"), Some("progs")]
    ensures SectionIndex(names, "uprobe/a") == 0 && SectionIndex(names, "uprobe/b") == 1
    ensures SectionIndex(names, "progs") == 2 && Some("maps") !in names
  {
    hide SectionIndex;
    assert "uprobe/a"[7] == 'a' && "uprobe/b"[7] == 'b' && |"progs"| == 5 && |"maps"| == 4;
    FirstMatch(names, "uprobe/a", 0);
    FirstMatch(names, "uprobe/b", 1);
    FirstMatch(names, "progs", 2);
  }

  lemma CutShortSymbols(f: Sym, d: Sym)
    requires f == Sym(Some("b"), 0, 1, STT_FUNC) && d == Sym(Some("b_def"), 0, 2, STT_OBJECT)
    ensures Names(Select([f] + [d], 0, Some(STT_FUNC))) == (true, [])
    ensures Names(Select([f] + [d], 1, Some(STT_FUNC))) == (true, ["b"])
    ensures Names(Select([f] + [d], 2, None)) == (true, ["b_def"])
  {
    hide Names, Select;
    SelectEach(f, d, 0, Some(STT_FUNC));
    SelectEach(f, d, 1, Some(STT_FUNC));
    SelectEach(f, d, 2, None);
    var none: seq<Sym> := [];
    assert none + none == none && [f] + none == [f] && none + [d] == [d];
    AllNamed([], []);
    AllNamed([f], ["b"]);
    AllNamed([d], ["b_def"]);
  }

  lemma SelectEach(a: Sym, b: Sym, section: int, kind: Option<nat>)
    ensures Select([a] + [b], section, kind) ==
      (if Selected(a, section, kind) then [a] else []) + (if Selected(b, section, kind) then [b] else [])
  {
    SelectAppend([a], [b], section, kind);
  }

  ghost predicate LowestFunction(e: Elf, i: int, f: Sym) {
    && f in e.syms && f.shndx == i && f.kind == 2 && f.name.Some?
    && multiset(e.syms)[f] == 1
    && forall g :: g in e.syms && g.shndx == i && g.kind == 2 && g != f ==> f.value < g.value
  }

  lemma FirstBelow(e: Elf, sorted: seq<Sym>, names: seq<string>, defs: seq<ProgDef>, fuse: nat, i: nat, n: nat)
    requires i < n <= |e.sections| && |names| <= |defs| && CodeIsNotLast(e, fuse)
    requires forall m :: i <= m < n && IsCode(e, m, fuse) ==> HasFunction(e, sorted, m)
    ensures CodeBelow(e, sorted, names, defs, fuse, i, n) ==
      (if IsCode(e, i, fuse) && e.sections[i].insns != [] then [CodeOf(e, sorted, names, defs, fuse, i)] else []) +
      CodeBelow(e, sorted, names, defs, fuse, i + 1, n)
  {
    hide CodeOf, IsCode, HasFunction;
    var rest := CodeBelow(e, sorted, names, defs, fuse, i + 1, n);
    assert [] + rest == rest;
  }

  lemma CountFirst(e: Elf, fuse: nat, i: nat, k: nat)
    requires i <= k <= |e.sections|
    ensures CodeCount(e, fuse, i, k) ==
      if i == k then 0
      else (if IsCode(e, i, fuse) && e.sections[i].insns != [] then 1 else 0) + CodeCount(e, fuse, i + 1, k)
  {
    hide IsCode;
  }

  /** The k-th section read is the k-th section of code with instructions. */
  lemma {:induction false} CodeAt(e: Elf, sorted: seq<Sym>, names: seq<string>, defs: seq<ProgDef>, fuse: nat,
      i: nat, n: nat, k: nat)
    requires i <= k < n <= |e.sections| && |names| <= |defs| && CodeIsNotLast(e, fuse)
    requires forall m :: i <= m < n && IsCode(e, m, fuse) ==> HasFunction(e, sorted, m)
    requires IsCode(e, k, fuse) && e.sections[k].insns != []
    ensures var cs, at := CodeBelow(e, sorted, names, defs, fuse, i, n), CodeCount(e, fuse, i, k);
      at < |cs| && cs[at] == CodeOf(e, sorted, names, defs, fuse, k)
    decreases k - i
  {
    hide CodeOf, IsCode, HasFunction, CodeIsNotLast, CodeBelow, CodeCount;
    FirstBelow(e, sorted, names, defs, fuse, i, n);
    CountFirst(e, fuse, i, k);
    if i < k {
      CodeAt(e, sorted, names, defs, fuse, i + 1, n, k);
    }
  }

  /** Section i as it is read, up to its definition: its instructions, the relocations of the
      section behind if that is named for it, its name with underscores for slashes, and the type
      of its prefix. */
  predicate IsSection(c: CodeSection, e: Elf, fuse: nat, i: nat)
    requires i < |e.sections|
  {
    && i + 1 < |e.sections| && e.sections[i].name.Some?
    && var name, next := e.sections[i].name.value, e.sections[i + 1];
    && c.insns == e.sections[i].insns
    && c.rels == (if next.name == Some(".rel" + name) then next.rels else [])
    && |c.name| == |name|
    && (forall k :: 0 <= k < |name| ==> c.name[k] == if name[k] == '/' then '_' else name[k])
    && c.kind == (
         if "kprobe/" <= name || "kretprobe/" <= name || "uprobe/" <= name || "uretprobe/" <= name then 2
         else if "perf_event/" <= name then 7
         else if "skfilter/" <= name then 1
         else if "tracepoint/" <= name then 5
         else fuse)
  }

  lemma IsCodeSection(e: Elf, sorted: seq<Sym>, names: seq<string>, defs: seq<ProgDef>, fuse: nat, i: nat)
    requires i + 1 < |e.sections| && IsCode(e, i, fuse) && HasFunction(e, sorted, i) && |names| <= |defs|
    ensures IsSection(CodeOf(e, sorted, names, defs, fuse, i), e, fuse, i)
  {
    hide SectionType, DefOf, Functions;
    var name := e.sections[i].name.value;
    SectionTypeExactly(name, fuse);
    assert "uprobe/"[0] == 'u' && "uretprobe/"[0] == 'u';
    assert "perf_event/"[0] == 'p' && "skfilter/"[0] == 's' && "tracepoint/"[0] == 't';
  }

  lemma {:induction false} BelowPrefix(e: Elf, sorted: seq<Sym>, names: seq<string>, defs: seq<ProgDef>, fuse: nat,
      i: nat, m: nat, n: nat)
    requires i <= m <= n <= |e.sections| && |names| <= |defs| && CodeIsNotLast(e, fuse)
    requires forall k :: i <= k < n && IsCode(e, k, fuse) ==> HasFunction(e, sorted, k)
    ensures CodeBelow(e, sorted, names, defs, fuse, i, m) <= CodeBelow(e, sorted, names, defs, fuse, i, n)
    decreases m - i
  {
    hide CodeOf, IsCode, HasFunction, CodeIsNotLast;
    if i < m {
      BelowPrefix(e, sorted, names, defs, fuse, i + 1, m, n);
    }
  }

  /** Definitions with readable names. */
  predicate ProgsReadable(e: Elf, sorted: seq<Sym>) {
    e.progs.Defs? && (e.progs.all == [] || DefNames(e, sorted).0)
  }

  /** Section i of an orderly object, code with instructions and none without a function before it,
      is read in its place. */
  lemma SectionRead(e: Elf, sorted: seq<Sym>, allowed: Option<seq<nat>>, fuse: nat, i: nat)
    requires Readable(e, sorted, fuse) && ProgsReadable(e, sorted) && Orderly(e, sorted, allowed, fuse)
    requires i < Stop(e, sorted, fuse, 0) && IsCode(e, i, fuse) && e.sections[i].insns != []
    ensures var (ret, cs), at := CodeSections(e, sorted, allowed, fuse), CodeCount(e, fuse, 0, i);
      ret == 0 && at < |cs| && IsSection(cs[at], e, fuse, i)
  {
    hide SectionType, CodeBelow, CodeFrom, Orderly, IsSection, CodeOf, DefNames, HasFunction, CodeCount;
    var names := DefNames(e, sorted).1;
    ReadFrom(e, sorted, names, e.progs.all, allowed, fuse, 0);
    CodeAt(e, sorted, names, e.progs.all, fuse, 0, Stop(e, sorted, fuse, 0), i);
    IsCodeSection(e, sorted, names, e.progs.all, fuse, i);
  }

  /** The k-th definition is the only one labelled for a function. */
  predicate DefinedAt(labels: seq<string>, func: string, j: nat) {
    && j < |labels| && labels[j] == func + "_def"
    && forall k :: 0 <= k < |labels| && k != j ==> labels[k] != labels[j]
  }

  ghost predicate ProgsLabelled(e: Elf, labels: seq<string>, size: nat) {
    && e.progs.Defs? && |labels| == |e.progs.all| && size > 0
    && SectionIndex(SectionNames(e), "progs") >= 0
    && LabelsSection(e.syms, SectionIndex(SectionNames(e), "progs"), None, labels, size)
  }

  /** Every code section read from a well-formed object comes with the definition of its own
      function, however the symbol table is ordered: the one labelled by the name of the function
      at the lowest address in the section. */
  lemma OwnDefinition(e: Elf, sorted: seq<Sym>, allowed: Option<seq<nat>>, fuse: nat, labels: seq<string>, size: nat,
      i: nat, f: Sym, j: nat)
    requires Orderly(e, sorted, allowed, fuse) && CodeIsNotLast(e, fuse) && SortOf(sorted, e.syms)
    requires ProgsLabelled(e, labels, size)
    requires i < Stop(e, sorted, fuse, 0) && IsCode(e, i, fuse) && e.sections[i].insns != []
    requires SectionIndex(SectionNames(e), e.sections[i].name.value) == i && LowestFunction(e, i, f)
    requires DefinedAt(labels, f.name.value, j)
    ensures Readable(e, sorted, fuse) && CodeSections(e, sorted, allowed, fuse).0 == 0
    ensures var cs, at := CodeSections(e, sorted, allowed, fuse).1, CodeCount(e, fuse, 0, i);
      at < |cs| && IsSection(cs[at], e, fuse, i) && cs[at].def == Some(e.progs.all[j])
  {
    hide SectionType, IsAllowed, Underscored, Names, Select;
    hide LabelsSection, SortOf, CodeBelow, CodeFrom, Orderly, RelsOf, IsSection, CodeCount;
    NamesAreLabels(SectionNames(e), e.syms, sorted, "progs", None, labels, size);
    ReadFrom(e, sorted, labels, e.progs.all, allowed, fuse, 0);
    FirstFunction(e, sorted, i, f);
    CodeAt(e, sorted, labels, e.progs.all, fuse, 0, Stop(e, sorted, fuse, 0), i);
    IsCodeSection(e, sorted, labels, e.progs.all, fuse, i);
  }

  lemma FirstFunction(e: Elf, sorted: seq<Sym>, i: nat, f: Sym)
    requires SortOf(sorted, e.syms) && i < |e.sections| && e.sections[i].name.Some?
    requires SectionIndex(SectionNames(e), e.sections[i].name.value) >= 0
    requires LowestFunction(e, SectionIndex(SectionNames(e), e.sections[i].name.value), f)
    requires HasFunction(e, sorted, i)
    ensures Functions(e, sorted, i).1[0] == f.name.value
  {
    var index := SectionIndex(SectionNames(e), e.sections[i].name.value);
    var own := Select(sorted, index, Some(STT_FUNC));
    SelectSorted(sorted, index, Some(STT_FUNC));
    assert f in multiset(sorted);
    assert f in own;
    var g := own[0];
    assert g in sorted && g in multiset(sorted);
  }

  // ---- whatever the order of the sorted symbols ----

  /** The functions of a section have readable names and one is at the lowest address, or there are
      none. */
  ghost predicate OneLowest(e: Elf, index: int) {
    && (forall f :: f in e.syms && Selected(f, index, Some(STT_FUNC)) ==> f.name.Some?)
    && (|| (exists f :: LowestFunction(e, index, f))
        || (forall f :: f in e.syms ==> !Selected(f, index, Some(STT_FUNC))))
  }

  ghost predicate LowestFunctions(e: Elf, fuse: nat) {
    forall i :: 0 <= i < |e.sections| && IsCode(e, i, fuse) ==>
      OneLowest(e, SectionIndex(SectionNames(e), e.sections[i].name.value))
  }

  lemma NoneSelected(sorted: seq<Sym>, syms: seq<Sym>, index: int)
    requires multiset(sorted) == multiset(syms)
    requires forall f :: f in syms ==> !Selected(f, index, Some(STT_FUNC))
    ensures Select(sorted, index, Some(STT_FUNC)) == []
  {
    SelectPermutation(sorted, syms, index, Some(STT_FUNC));
    SelectsNothing(syms, index);
    assert |Select(sorted, index, Some(STT_FUNC))| == |multiset(Select(syms, index, Some(STT_FUNC)))|;
  }

  lemma SelectsNothing(syms: seq<Sym>, index: int)
    requires forall f :: f in syms ==> !Selected(f, index, Some(STT_FUNC))
    ensures Select(syms, index, Some(STT_FUNC)) == []
  {
  }

  lemma FunctionsOf(e: Elf, sorted: seq<Sym>, i: nat)
    requires SortOf(sorted, e.syms) && i < |e.sections| && e.sections[i].name.Some?
    requires OneLowest(e, SectionIndex(SectionNames(e), e.sections[i].name.value))
    ensures var index := SectionIndex(SectionNames(e), e.sections[i].name.value);
      && Functions(e, sorted, i).0 == (index >= 0)
      && (HasFunction(e, sorted, i) <==> index >= 0 && exists f :: LowestFunction(e, index, f))
  {
    hide Names;
    var index := SectionIndex(SectionNames(e), e.sections[i].name.value);
    if index >= 0 {
      var own := Select(sorted, index, Some(STT_FUNC));
      forall sym | sym in own ensures sym in e.syms && sym.name.Some? {
        assert sym in multiset(sorted);
      }
      NamesReadable(own);
      if f :| LowestFunction(e, index, f) {
        assert f in multiset(sorted) && f in own;
      } else {
        NoneSelected(sorted, e.syms, index);
      }
    }
  }

  lemma FunctionsAlike(e: Elf, a: seq<Sym>, b: seq<Sym>, i: nat)
    requires SortOf(a, e.syms) && SortOf(b, e.syms) && i < |e.sections| && e.sections[i].name.Some?
    requires OneLowest(e, SectionIndex(SectionNames(e), e.sections[i].name.value))
    ensures Functions(e, a, i).0 == Functions(e, b, i).0
    ensures HasFunction(e, a, i) <==> HasFunction(e, b, i)
    ensures HasFunction(e, a, i) ==> Functions(e, a, i).1[0] == Functions(e, b, i).1[0]
  {
    hide SectionSymNames, LowestFunction, SortOf;
    FunctionsOf(e, a, i);
    FunctionsOf(e, b, i);
    if HasFunction(e, a, i) {
      var f :| LowestFunction(e, SectionIndex(SectionNames(e), e.sections[i].name.value), f);
      FirstFunction(e, a, i, f);
      FirstFunction(e, b, i, f);
    }
  }

  /** Two sorts that order symbols of equal value differently give the same code sections. */
  lemma {:induction false} CodeFromAlike(e: Elf, a: seq<Sym>, b: seq<Sym>, names: seq<string>, defs: seq<ProgDef>,
      allowed: Option<seq<nat>>, fuse: nat, i: nat)
    requires i <= |e.sections| && |names| <= |defs| && CodeIsNotLast(e, fuse)
    requires SortOf(a, e.syms) && SortOf(b, e.syms) && LowestFunctions(e, fuse)
    ensures CodeFrom(e, a, names, defs, allowed, fuse, i) == CodeFrom(e, b, names, defs, allowed, fuse, i)
    decreases |e.sections| - i
  {
    hide SortOf, SectionSymNames, OneLowest, SectionType, IsAllowed, DefOf, RelsOf, Underscored;
    if i < |e.sections| {
      if IsCode(e, i, fuse) {
        FunctionsAlike(e, a, b, i);
      }
      CodeFromAlike(e, a, b, names, defs, allowed, fuse, i + 1);
    }
  }
}
