/** applyMapRelo: load-immediate instructions that refer to a map by its symbol are given the map's
    descriptor, in place. */
module Relocation {
  import opened Options
  import opened ElfSymbols
  import opened ElfCode

  const PSEUDO_MAP_FD: nat := 1
  const INSN_SIZE: nat := 8

  /** What a relocation is resolved with: the unsorted symbols, and the maps' names and descriptors
      position by position. */
  datatype Link = Link(syms: seq<Sym>, names: seq<string>, fds: seq<int>)

  predicate Matched(l: Link) { |l.names| <= |l.fds| }

  /** The instructions a section is relocated in exist; the source does not check. */
  predicate InBounds(rels: seq<Rel>, n: nat) {
    forall i :: 0 <= i < |rels| ==> rels[i].offset / INSN_SIZE < n
  }

  // ---- specification ----

  function IndexOf(names: seq<string>, name: string): (j: nat)
    ensures j <= |names|
    ensures j < |names| ==> names[j] == name
    ensures forall i :: 0 <= i < j ==> names[i] != name
  {
    if names == [] || names[0] == name then 0 else 1 + IndexOf(names[1..], name)
  }

  /** The descriptor a symbol stands for, if it names a map. */
  function FdOf(l: Link, sym: nat): Option<int>
    requires Matched(l)
  {
    var name := SymNameByIdx(l.syms, sym);
    if name == None then None
    else
      var j := IndexOf(l.names, name.value);
      if j < |l.names| then Some(l.fds[j]) else None
  }

  /** Symbol sym has the j-th name, and no name before is the same. */
  predicate NamesMap(l: Link, sym: nat, j: nat) {
    && sym < |l.syms| && j < |l.names| && l.syms[sym].name == Some(l.names[j])
    && forall m :: 0 <= m < j ==> l.names[m] != l.names[j]
  }

  /** A symbol stands for the descriptor in the place of its own name, and for none if no map has
      it. */
  lemma FdOfExactly(l: Link, sym: nat)
    requires Matched(l)
    ensures forall j: nat :: NamesMap(l, sym, j) ==> FdOf(l, sym) == Some(l.fds[j])
    ensures FdOf(l, sym).Some? ==> exists j: nat :: NamesMap(l, sym, j)
  {
    if sym < |l.syms| && l.syms[sym].name.Some? {
      var j := IndexOf(l.names, l.syms[sym].name.value);
      assert j < |l.names| ==> NamesMap(l, sym, j);
    }
  }

  function Patched(insn: Insn, fd: int): Insn {
    if insn.code == LOAD_IMM64 then insn.(imm := fd, src := PSEUDO_MAP_FD) else insn
  }

  /** After all of these relocations, in order. */
  function Relocated(l: Link, insns: seq<Insn>, rels: seq<Rel>): (r: seq<Insn>)
    requires Matched(l) && InBounds(rels, |insns|)
    ensures |r| == |insns|
  {
    if rels == [] then insns
    else
      var rel := rels[|rels| - 1];
      var before := Relocated(l, insns, rels[..|rels| - 1]);
      var at, fd := rel.offset / INSN_SIZE, FdOf(l, rel.sym);
      if fd == None then before else before[at := Patched(before[at], fd.value)]
  }

  /** How many relocations come before the first whose symbol has no name. */
  function Resolvable(l: Link, rels: seq<Rel>): (n: nat)
    ensures n <= |rels|
    ensures forall i :: 0 <= i < n ==> rels[i].sym < |l.syms| && l.syms[rels[i].sym].name.Some?
    ensures n < |rels| ==> rels[n].sym >= |l.syms| || l.syms[rels[n].sym].name == None
  {
    if rels == [] || SymNameByIdx(l.syms, rels[0].sym) == None then 0 else 1 + Resolvable(l, rels[1..])
  }

  lemma ResolvesAll(l: Link, rels: seq<Rel>)
    requires forall rel :: rel in rels ==> rel.sym < |l.syms| && l.syms[rel.sym].name.Some?
    ensures Resolvable(l, rels) == |rels|
  {
  }

  predicate AllInBounds(cs: seq<CodeSection>) {
    forall k :: 0 <= k < |cs| ==> InBounds(cs[k].rels, |cs[k].insns|)
  }

  /** Sections in order; the first symbol without a name ends everything, silently. */
  function RelocatedSections(l: Link, cs: seq<CodeSection>): (r: seq<CodeSection>)
    requires Matched(l) && AllInBounds(cs)
    ensures |r| == |cs|
  {
    if cs == [] then []
    else
      var n := Resolvable(l, cs[0].rels);
      [cs[0].(insns := Relocated(l, cs[0].insns, cs[0].rels[..n]))] +
      if n < |cs[0].rels| then cs[1..] else RelocatedSections(l, cs[1..])
  }

  /** Without names of maps nothing is relocated. */
  function Linked(e: Elf, sorted: seq<Sym>, fds: seq<int>, cs: seq<CodeSection>): (r: seq<CodeSection>)
    requires AllInBounds(cs) && (MapNames(e, sorted).0 ==> |MapNames(e, sorted).1| <= |fds|)
    ensures |r| == |cs|
  {
    var names := MapNames(e, sorted);
    if names.0 then RelocatedSections(Link(e.syms, names.1, fds), cs) else cs
  }

  // ---- the code ----

  method ApplyRelo(insns: array<Insn>, offset: nat, fd: int)
    requires offset / INSN_SIZE < insns.Length
    modifies insns
    ensures insns[..] == old(insns[..])[offset / INSN_SIZE := Patched(old(insns[offset / INSN_SIZE]), fd)]
    ensures forall k :: 0 <= k < insns.Length ==>
      insns[k] ==
        if k == offset / 8 && old(insns[k]).code == 0x18 then old(insns[k]).(imm := fd, src := 1) else old(insns[k])
  {
    var insnIndex := offset / INSN_SIZE;
    if insns[insnIndex].code != LOAD_IMM64 {
      return;
    }
    insns[insnIndex] := insns[insnIndex].(imm := fd, src := PSEUDO_MAP_FD);
  }

  /** The loop over one section's relocations. */
  method ApplySection(insns: array<Insn>, rels: seq<Rel>, syms: seq<Sym>, mapNames: seq<string>, mapFds: seq<int>)
    returns (ok: bool)
    requires |mapNames| <= |mapFds| && InBounds(rels, insns.Length)
    modifies insns
    ensures var l := Link(syms, mapNames, mapFds);
      && ok == (Resolvable(l, rels) == |rels|)
      && insns[..] == Relocated(l, old(insns[..]), rels[..Resolvable(l, rels)])
  {
    ghost var l := Link(syms, mapNames, mapFds);
    hide Relocated, IndexOf;
    var i := 0;
    NoneRelocated(l, insns[..]);
    assert rels[..0] == [];
    while i < |rels|
      invariant 0 <= i <= Resolvable(l, rels)
      invariant insns[..] == Relocated(l, old(insns[..]), rels[..i])
    {
      NextRelocated(l, old(insns[..]), rels, i);
      var symName := SymNameByIdx(syms, rels[i].sym);
      if symName == None {
        return false;
      }
      var j := 0;
      while j < |mapNames|
        invariant 0 <= j <= |mapNames|
        invariant forall k :: 0 <= k < j ==> mapNames[k] != symName.value
        invariant insns[..] == Relocated(l, old(insns[..]), rels[..i])
      {
        if mapNames[j] == symName.value {
          break;
        }
        j := j + 1;
      }
      if j < |mapNames| {
        ApplyRelo(insns, rels[i].offset, mapFds[j]);
      }
      i := i + 1;
    }
    ok := true;
  }

  lemma NoneRelocated(l: Link, insns: seq<Insn>)
    requires Matched(l)
    ensures Relocated(l, insns, []) == insns
  {
  }

  lemma NextRelocated(l: Link, insns: seq<Insn>, rels: seq<Rel>, i: nat)
    requires Matched(l) && InBounds(rels, |insns|) && i < |rels|
    ensures var before, at := Relocated(l, insns, rels[..i]), rels[i].offset / INSN_SIZE;
      Relocated(l, insns, rels[..i + 1]) ==
      match FdOf(l, rels[i].sym)
      case Some(fd) => before[at := Patched(before[at], fd)]
      case None => before
  {
    assert rels[..i + 1][..i] == rels[..i];
  }

  method ApplyMapRelo(e: Elf, sorted: seq<Sym>, mapFds: seq<int>, cs: seq<CodeSection>, data: seq<array<Insn>>)
    requires |data| == |cs| && AllInBounds(cs)
    requires forall i, j :: 0 <= i < j < |data| ==> data[i] != data[j]
    requires forall k :: 0 <= k < |cs| ==> data[k][..] == cs[k].insns
    requires MapNames(e, sorted).0 ==> |MapNames(e, sorted).1| <= |mapFds|
    modifies data
    ensures forall k :: 0 <= k < |cs| ==> data[k][..] == Linked(e, sorted, mapFds, cs)[k].insns
  {
    hide Relocated, Resolvable, RelocatedSections, SectionSymNames;
    var ret, mapNames := GetSectionSymNames(SectionNames(e), sorted, "maps", None);
    if ret != 0 {
      return;
    }
    ghost var l := Link(e.syms, mapNames, mapFds);
    var k := 0;
    while k < |cs|
      invariant 0 <= k <= |cs|
      invariant forall j :: 0 <= j < k ==> Resolvable(l, cs[j].rels) == |cs[j].rels|
      invariant forall j :: 0 <= j < k ==> data[j][..] == Relocated(l, cs[j].insns, cs[j].rels)
      invariant forall j :: k <= j < |cs| ==> data[j][..] == cs[j].insns
    {
      SectionAt(l, cs, k);
      var ok := ApplySection(data[k], cs[k].rels, e.syms, mapNames, mapFds);
      assert cs[k].rels[..|cs[k].rels|] == cs[k].rels;
      if !ok {
        return;
      }
      k := k + 1;
    }
    SectionAt(l, cs, k);
  }

  lemma FirstSection(l: Link, cs: seq<CodeSection>)
    requires Matched(l) && AllInBounds(cs) && cs != []
    ensures AllInBounds(cs[1..])
    ensures var n := Resolvable(l, cs[0].rels);
      RelocatedSections(l, cs) == [cs[0].(insns := Relocated(l, cs[0].insns, cs[0].rels[..n]))] +
        (if n < |cs[0].rels| then cs[1..] else RelocatedSections(l, cs[1..]))
  {
    hide Relocated, Resolvable;
  }

  lemma {:induction false} SectionAt(l: Link, cs: seq<CodeSection>, k: nat)
    requires Matched(l) && AllInBounds(cs) && k <= |cs|
    requires forall j :: 0 <= j < k ==> Resolvable(l, cs[j].rels) == |cs[j].rels|
    ensures var r := RelocatedSections(l, cs);
      && (forall j :: 0 <= j < k ==> r[j] == cs[j].(insns := Relocated(l, cs[j].insns, cs[j].rels)))
      && (k < |cs| ==> r[k] == cs[k].(insns := Relocated(l, cs[k].insns, cs[k].rels[..Resolvable(l, cs[k].rels)])))
      && (k < |cs| && Resolvable(l, cs[k].rels) < |cs[k].rels| ==> forall j :: k < j < |cs| ==> r[j] == cs[j])
  {
    hide Relocated, Resolvable, RelocatedSections;
    if cs != [] {
      FirstSection(l, cs);
    }
    if k > 0 {
      SectionAt(l, cs[1..], k - 1);
      assert cs[0].rels[..|cs[0].rels|] == cs[0].rels;
    }
  }

  lemma {:induction false} OnlyInsnsChange(l: Link, cs: seq<CodeSection>, k: nat)
    requires Matched(l) && AllInBounds(cs) && k < |cs|
    ensures RelocatedSections(l, cs)[k] == cs[k].(insns := RelocatedSections(l, cs)[k].insns)
  {
    hide Relocated, Resolvable;
    if k > 0 && Resolvable(l, cs[0].rels) == |cs[0].rels| {
      OnlyInsnsChange(l, cs[1..], k - 1);
    }
  }

  // ---- what relocation does to one instruction ----

  /** The descriptor given by the last relocation of instruction k that names a map. */
  function LastTarget(l: Link, rels: seq<Rel>, k: nat): Option<int>
    requires Matched(l)
  {
    if rels == [] then None
    else
      var rel := rels[|rels| - 1];
      if rel.offset / INSN_SIZE == k && FdOf(l, rel.sym).Some? then FdOf(l, rel.sym)
      else LastTarget(l, rels[..|rels| - 1], k)
  }

  /** Relocation i is one of instruction k, and its symbol has the name of map j. */
  predicate Targets(l: Link, rels: seq<Rel>, k: nat, i: nat, j: nat) {
    i < |rels| && rels[i].offset / 8 == k && NamesMap(l, rels[i].sym, j)
  }

  /** And no later one names a map. */
  ghost predicate TargetsLast(l: Link, rels: seq<Rel>, k: nat, i: nat, j: nat) {
    Targets(l, rels, k, i, j) && forall i': nat, j': nat :: Targets(l, rels, k, i', j') ==> i' <= i
  }

  /** A load of a 64-bit immediate that is relocated to maps holds the descriptor of the last one's
      and the mark of a map; every other instruction and every other field is what it was. */
  lemma InsnExactly(l: Link, insns: seq<Insn>, rels: seq<Rel>, k: nat)
    requires Matched(l) && InBounds(rels, |insns|) && k < |insns|
    ensures forall i: nat, j: nat :: TargetsLast(l, rels, k, i, j) ==>
      Relocated(l, insns, rels)[k] ==
        if insns[k].code == 0x18 then insns[k].(imm := l.fds[j], src := 1) else insns[k]
    ensures (forall i: nat, j: nat :: !Targets(l, rels, k, i, j)) ==> Relocated(l, insns, rels)[k] == insns[k]
  {
    hide Relocated, LastTarget, FdOf;
    InsnAfter(l, insns, rels, k);
    forall i: nat, j: nat | TargetsLast(l, rels, k, i, j)
      ensures LastTarget(l, rels, k) == Some(l.fds[j])
    {
      LastTargetIs(l, rels, k, i, j);
    }
    if forall i: nat, j: nat :: !Targets(l, rels, k, i, j) {
      NoTarget(l, rels, k);
    }
  }

  lemma {:induction false} LastTargetIs(l: Link, rels: seq<Rel>, k: nat, i: nat, j: nat)
    requires Matched(l) && TargetsLast(l, rels, k, i, j)
    ensures j < |l.fds| && LastTarget(l, rels, k) == Some(l.fds[j])
  {
    hide FdOf;
    var n, shorter := |rels| - 1, rels[..|rels| - 1];
    FdOfExactly(l, rels[n].sym);
    if i < n {
      forall j': nat | NamesMap(l, rels[n].sym, j') ensures rels[n].offset / 8 != k {
        assert !Targets(l, rels, k, n, j');
      }
      forall i': nat, j': nat | Targets(l, shorter, k, i', j') ensures i' <= i {
        assert Targets(l, rels, k, i', j');
      }
      LastTargetIs(l, shorter, k, i, j);
    }
  }

  lemma {:induction false} NoTarget(l: Link, rels: seq<Rel>, k: nat)
    requires Matched(l) && forall i: nat, j: nat :: !Targets(l, rels, k, i, j)
    ensures LastTarget(l, rels, k) == None
  {
    hide FdOf;
    if rels != [] {
      var n, shorter := |rels| - 1, rels[..|rels| - 1];
      FdOfExactly(l, rels[n].sym);
      forall j': nat | NamesMap(l, rels[n].sym, j') ensures rels[n].offset / 8 != k {
        assert !Targets(l, rels, k, n, j');
      }
      forall i': nat, j': nat ensures !Targets(l, shorter, k, i', j') {
        assert !Targets(l, rels, k, i', j');
      }
      NoTarget(l, shorter, k);
    }
  }

  lemma {:induction false} InsnAfter(l: Link, insns: seq<Insn>, rels: seq<Rel>, k: nat)
    requires Matched(l) && InBounds(rels, |insns|) && k < |insns|
    ensures Relocated(l, insns, rels)[k] ==
      match LastTarget(l, rels, k)
      case Some(fd) => Patched(insns[k], fd)
      case None => insns[k]
  {
    if rels != [] {
      InsnAfter(l, insns, rels[..|rels| - 1], k);
    }
  }

  /** A second application changes nothing. */
  lemma RelocatedTwice(l: Link, insns: seq<Insn>, rels: seq<Rel>)
    requires Matched(l) && InBounds(rels, |insns|)
    ensures Relocated(l, Relocated(l, insns, rels), rels) == Relocated(l, insns, rels)
  {
    var once := Relocated(l, insns, rels);
    forall k | 0 <= k < |insns| ensures Relocated(l, once, rels)[k] == once[k] {
      InsnAfter(l, insns, rels, k);
      InsnAfter(l, once, rels, k);
    }
  }

  lemma {:induction false} LinkedTwice(l: Link, cs: seq<CodeSection>)
    requires Matched(l) && AllInBounds(cs)
    ensures AllInBounds(RelocatedSections(l, cs))
    ensures RelocatedSections(l, RelocatedSections(l, cs)) == RelocatedSections(l, cs)
  {
    hide Relocated, Resolvable;
    if cs != [] {
      RelocatedTwice(l, cs[0].insns, cs[0].rels[..Resolvable(l, cs[0].rels)]);
      LinkedTwice(l, cs[1..]);
      var r := RelocatedSections(l, cs);
      assert r[1..] == if Resolvable(l, cs[0].rels) < |cs[0].rels| then cs[1..] else RelocatedSections(l, cs[1..]);
    }
  }

}
