/** The symbol table of a bpf object: how names are paired with the definitions they label.

    The definitions of a section lie one after the other, and the j-th one is found by its
    position; its name is the j-th symbol of the section once the table is sorted by value. */
module ElfSymbols {
  import opened Options

  /** Elf64_Sym with its name looked up; None where the offset lies outside the string table. */
  datatype Sym = Sym(name: Option<string>, value: nat, shndx: int, kind: nat)

  const STT_OBJECT: nat := 1
  const STT_FUNC: nat := 2

  // ---- sorting ----

  ghost predicate SortedByValue(syms: seq<Sym>) {
    forall i, j :: 0 <= i < j < |syms| ==> syms[i].value <= syms[j].value
  }

  /** What std::sort may return: it is free to order symbols of equal value either way. */
  ghost predicate SortOf(sorted: seq<Sym>, syms: seq<Sym>) {
    SortedByValue(sorted) && multiset(sorted) == multiset(syms)
  }

  // ---- selecting the symbols of a section ----

  predicate Selected(sym: Sym, section: int, kind: Option<nat>) {
    (kind.Some? ==> sym.kind == kind.value) && sym.shndx == section
  }

  function Select(syms: seq<Sym>, section: int, kind: Option<nat>): (r: seq<Sym>)
    ensures |r| <= |syms|
    ensures forall sym :: sym in r <==> sym in syms && Selected(sym, section, kind)
  {
    if syms == [] then []
    else
      var rest := Select(syms[1..], section, kind);
      if Selected(syms[0], section, kind) then [syms[0]] + rest else rest
  }

  lemma {:induction false} SelectAppend(a: seq<Sym>, b: seq<Sym>, section: int, kind: Option<nat>)
    ensures Select(a + b, section, kind) == Select(a, section, kind) + Select(b, section, kind)
  {
    if a == [] {
      assert a + b == b;
    } else {
      assert (a + b)[1..] == a[1..] + b;
      SelectAppend(a[1..], b, section, kind);
    }
  }

  lemma {:induction false} SelectSorted(syms: seq<Sym>, section: int, kind: Option<nat>)
    requires SortedByValue(syms)
    ensures SortedByValue(Select(syms, section, kind))
  {
    if syms != [] {
      SelectSorted(syms[1..], section, kind);
      forall sym | sym in Select(syms[1..], section, kind) ensures syms[0].value <= sym.value {
        assert sym in syms[1..];
      }
    }
  }

  /** Selection sees a table as a multiset: every symbol of the section, and of the kind if one is
      asked for, as often as it is there, and no other. */
  lemma SelectCounts(syms: seq<Sym>, section: int, kind: Option<nat>, sym: Sym)
    ensures multiset(Select(syms, section, kind))[sym] ==
      if sym.shndx == section && (kind == None || kind == Some(sym.kind)) then multiset(syms)[sym] else 0
  {
    CountSelected(syms, section, kind, sym);
  }

  lemma {:induction false} CountSelected(syms: seq<Sym>, section: int, kind: Option<nat>, sym: Sym)
    ensures multiset(Select(syms, section, kind))[sym] ==
      if Selected(sym, section, kind) then multiset(syms)[sym] else 0
  {
    hide Selected;
    if syms != [] {
      CountSelected(syms[1..], section, kind, sym);
      assert syms == [syms[0]] + syms[1..];
    }
  }

  lemma SelectPermutation(a: seq<Sym>, b: seq<Sym>, section: int, kind: Option<nat>)
    requires multiset(a) == multiset(b)
    ensures multiset(Select(a, section, kind)) == multiset(Select(b, section, kind))
  {
    forall sym ensures multiset(Select(a, section, kind))[sym] == multiset(Select(b, section, kind))[sym] {
      SelectCounts(a, section, kind, sym);
      SelectCounts(b, section, kind, sym);
    }
  }

  // ---- pairing ----

  predicate LabelAt(sym: Sym, labels: seq<string>, size: nat, j: int)
    requires 0 <= j < |labels|
  {
    sym.value == j * size && sym.name == Some(labels[j])
  }

  ghost predicate Labelled(syms: seq<Sym>, labels: seq<string>, size: nat, j: int)
    requires 0 <= j < |labels|
  {
    exists sym :: sym in syms && LabelAt(sym, labels, size, j)
  }

  /** As many symbols as definitions, and one for each: where the definition is, with its name. */
  ghost predicate LabelsAll(syms: seq<Sym>, labels: seq<string>, size: nat) {
    && |syms| == |labels|
    && forall j :: 0 <= j < |labels| ==> Labelled(syms, labels, size, j)
  }

  lemma {:induction false} NotBefore(syms: seq<Sym>, labels: seq<string>, size: nat, j: nat, i: nat)
    requires SortedByValue(syms) && LabelsAll(syms, labels, size) && size > 0
    requires j < |labels| && i < |syms| && LabelAt(syms[i], labels, size, j)
    ensures j <= i
  {
    if j > 0 {
      assert Labelled(syms, labels, size, j - 1);
      var k: nat :| k < |syms| && LabelAt(syms[k], labels, size, j - 1);
      Spacing(size, j);
      NotBefore(syms, labels, size, j - 1, k);
    }
  }

  lemma {:induction false} NotAfter(syms: seq<Sym>, labels: seq<string>, size: nat, j: nat, i: nat)
    requires SortedByValue(syms) && LabelsAll(syms, labels, size) && size > 0
    requires j < |labels| && i < |syms| && LabelAt(syms[i], labels, size, j)
    ensures i <= j
    decreases |labels| - j
  {
    if j + 1 < |labels| {
      assert Labelled(syms, labels, size, j + 1);
      var k: nat :| k < |syms| && LabelAt(syms[k], labels, size, j + 1);
      Spacing(size, j + 1);
      NotAfter(syms, labels, size, j + 1, k);
    }
  }

  lemma Spacing(size: nat, j: nat)
    requires size > 0 && j > 0
    ensures (j - 1) * size < j * size
  {
    assert j * size == (j - 1) * size + size;
  }

  /** Sorted, the j-th symbol labels the j-th definition. */
  lemma SortedLabels(syms: seq<Sym>, labels: seq<string>, size: nat)
    requires SortedByValue(syms) && LabelsAll(syms, labels, size) && size > 0
    ensures forall j :: 0 <= j < |labels| ==> LabelAt(syms[j], labels, size, j)
  {
    forall j | 0 <= j < |labels| ensures LabelAt(syms[j], labels, size, j) {
      assert Labelled(syms, labels, size, j);
      var i: nat :| i < |syms| && LabelAt(syms[i], labels, size, j);
      NotBefore(syms, labels, size, j, i);
      NotAfter(syms, labels, size, j, i);
    }
  }

  // ---- getSectionSymNames ----

  /** The names in order, up to the first that cannot be read. */
  function Names(syms: seq<Sym>): (r: (bool, seq<string>))
    ensures |r.1| <= |syms|
    ensures r.0 ==> |r.1| == |syms| && forall i :: 0 <= i < |syms| ==> syms[i].name == Some(r.1[i])
  {
    if syms == [] then (true, [])
    else
      var before := Names(syms[..|syms| - 1]);
      match syms[|syms| - 1].name
      case Some(name) => if before.0 then (true, before.1 + [name]) else before
      case None => (false, before.1)
  }

  /** The first section with a name, looking no further than a name that cannot be read. */
  function SectionIndex(sections: seq<Option<string>>, name: string): (r: int)
    ensures -1 <= r < |sections|
    ensures r >= 0 ==> sections[r] == Some(name)
    ensures forall i :: 0 <= i < r ==> sections[i].Some? && sections[i] != Some(name)
    ensures r < 0 && None !in sections ==> Some(name) !in sections
  {
    if sections == [] || sections[0] == None then -1
    else if sections[0] == Some(name) then 0
    else
      var r := SectionIndex(sections[1..], name);
      if r < 0 then -1 else r + 1
  }

  /** Whether the call succeeds, and the names it has then collected. */
  function SectionSymNames(sections: seq<Option<string>>, sorted: seq<Sym>, section: string, kind: Option<nat>)
    : (bool, seq<string>)
  {
    var index := SectionIndex(sections, section);
    if index < 0 then (false, []) else Names(Select(sorted, index, kind))
  }

  method GetSectionSymNames(sections: seq<Option<string>>, sorted: seq<Sym>, section: string, kind: Option<nat>)
    returns (ret: int, names: seq<string>)
    ensures ret == 0 || ret == -1
    ensures (ret == 0, names) == SectionSymNames(sections, sorted, section, kind)
  {
    hide Select, Names, SectionIndex;
    names := [];
    var secIdx := -1;
    var i := 0;
    while i < |sections|
      invariant 0 <= i <= |sections|
      invariant secIdx == -1
      invariant forall k :: 0 <= k < i ==> sections[k].Some? && sections[k] != Some(section)
    {
      if sections[i] == None {
        FirstUnreadable(sections, section, i);
        return -1, names;
      }
      if sections[i] == Some(section) {
        secIdx := i;
        break;
      }
      i := i + 1;
    }
    FirstMatch(sections, section, i);
    if secIdx == -1 {
      return -1, names;
    }
    i := 0;
    NothingSelected(sorted, secIdx, kind);
    while i < |sorted|
      invariant 0 <= i <= |sorted|
      invariant Names(Select(sorted[..i], secIdx, kind)) == (true, names)
    {
      SelectNext(sorted, i, secIdx, kind);
      if kind.Some? && sorted[i].kind != kind.value {
        i := i + 1;
        continue;
      }
      if sorted[i].shndx == secIdx {
        if sorted[i].name == None {
          NamesStop(sorted, i, secIdx, kind);
          return -1, names;
        }
        NamesNext(Select(sorted[..i], secIdx, kind), sorted[i]);
        names := names + [sorted[i].name.value];
      }
      i := i + 1;
    }
    assert sorted[..|sorted|] == sorted;
    ret := 0;
  }

  lemma {:induction false} FirstUnreadable(sections: seq<Option<string>>, section: string, i: nat)
    requires i < |sections| && sections[i] == None
    requires forall k :: 0 <= k < i ==> sections[k].Some? && sections[k] != Some(section)
    ensures SectionIndex(sections, section) == -1
  {
    if i > 0 {
      FirstUnreadable(sections[1..], section, i - 1);
    }
  }

  lemma {:induction false} FirstMatch(sections: seq<Option<string>>, section: string, i: nat)
    requires i <= |sections| && (i < |sections| ==> sections[i] == Some(section))
    requires forall k :: 0 <= k < i ==> sections[k].Some? && sections[k] != Some(section)
    ensures SectionIndex(sections, section) == if i < |sections| then i else -1
  {
    if i > 0 {
      FirstMatch(sections[1..], section, i - 1);
    }
  }

  lemma SelectNext(syms: seq<Sym>, i: nat, section: int, kind: Option<nat>)
    requires i < |syms|
    ensures var before := Select(syms[..i], section, kind);
      Select(syms[..i + 1], section, kind) == if Selected(syms[i], section, kind) then before + [syms[i]] else before
  {
    assert syms[..i + 1] == syms[..i] + [syms[i]];
    SelectAppend(syms[..i], [syms[i]], section, kind);
  }

  lemma NothingSelected(syms: seq<Sym>, section: int, kind: Option<nat>)
    ensures Names(Select(syms[..0], section, kind)) == (true, [])
  {
  }

  lemma NamesNext(syms: seq<Sym>, sym: Sym)
    requires Names(syms).0 && sym.name.Some?
    ensures Names(syms + [sym]) == (true, Names(syms).1 + [sym.name.value])
  {
    assert (syms + [sym])[..|syms|] == syms;
  }

  lemma NamesStop(syms: seq<Sym>, i: nat, section: int, kind: Option<nat>)
    requires i < |syms| && Selected(syms[i], section, kind) && syms[i].name == None
    requires Names(Select(syms[..i], section, kind)).0
    ensures Names(Select(syms, section, kind)) == (false, Names(Select(syms[..i], section, kind)).1)
  {
    hide Names;
    assert syms == syms[..i] + syms[i..];
    SelectAppend(syms[..i], syms[i..], section, kind);
    var own := Select(syms[i..], section, kind);
    assert own == [syms[i]] + own[1..];
    Unreadable(Select(syms[..i], section, kind), syms[i], own[1..]);
    assert Select(syms[..i], section, kind) + own == Select(syms[..i], section, kind) + [syms[i]] + own[1..];
  }

  lemma {:induction false} Unreadable(before: seq<Sym>, sym: Sym, rest: seq<Sym>)
    requires Names(before).0 && sym.name == None
    ensures Names(before + [sym] + rest) == (false, Names(before).1)
  {
    var all := before + [sym] + rest;
    if rest == [] {
      assert all[..|all| - 1] == before;
    } else {
      Unreadable(before, sym, rest[..|rest| - 1]);
      assert all[..|all| - 1] == before + [sym] + rest[..|rest| - 1];
    }
  }

  /** The call succeeds exactly if the section is found and every symbol selected has a name; there
      is then one name for each of them. */
  lemma SymNamesSucceed(sections: seq<Option<string>>, sorted: seq<Sym>, section: string, kind: Option<nat>)
    ensures var index, (ok, names) := SectionIndex(sections, section), SectionSymNames(sections, sorted, section, kind);
      && (ok <==> index >= 0 && forall sym ::
            sym in sorted && sym.shndx == index && (kind == None || kind == Some(sym.kind)) ==> sym.name.Some?)
      && (ok ==> |names| == |Select(sorted, index, kind)|)
  {
    hide Names, SectionIndex;
    var index := SectionIndex(sections, section);
    if index >= 0 {
      var own := Select(sorted, index, kind);
      if sym :| sym in own && sym.name == None {
        var i :| 0 <= i < |own| && own[i] == sym;
        UnreadableAt(own, i);
      } else {
        NamesReadable(own);
      }
    }
  }

  lemma UnreadableAt(syms: seq<Sym>, i: nat)
    requires i < |syms| && syms[i].name == None
    ensures !Names(syms).0
  {
    hide Names;
  }

  lemma NamesReadable(syms: seq<Sym>)
    requires forall sym :: sym in syms ==> sym.name.Some?
    ensures Names(syms).0 && |Names(syms).1| == |syms|
  {
  }

  /** A well-formed table: the symbols of the section label its definitions, in whatever order the
      table holds them. */
  ghost predicate LabelsSection(syms: seq<Sym>, section: int, kind: Option<nat>, labels: seq<string>, size: nat) {
    LabelsAll(Select(syms, section, kind), labels, size)
  }

  /** Positional pairing: from any order of a well-formed table and any sort of it, name j is the
      label of definition j. */
  lemma NamesAreLabels(sections: seq<Option<string>>, syms: seq<Sym>, sorted: seq<Sym>, section: string,
      kind: Option<nat>, labels: seq<string>, size: nat)
    requires SortOf(sorted, syms) && size > 0
    requires SectionIndex(sections, section) >= 0
    requires LabelsSection(syms, SectionIndex(sections, section), kind, labels, size)
    ensures SectionSymNames(sections, sorted, section, kind) == (true, labels)
  {
    var index := SectionIndex(sections, section);
    var own, own' := Select(syms, index, kind), Select(sorted, index, kind);
    SelectSorted(sorted, index, kind);
    SelectPermutation(syms, sorted, index, kind);
    assert |own| == |multiset(own)| == |multiset(own')| == |own'|;
    forall j | 0 <= j < |labels| ensures Labelled(own', labels, size, j) {
      assert Labelled(own, labels, size, j);
      var sym :| sym in own && LabelAt(sym, labels, size, j);
      assert sym in multiset(own');
    }
    SortedLabels(own', labels, size);
    AllNamed(own', labels);
  }

  lemma {:induction false} AllNamed(syms: seq<Sym>, labels: seq<string>)
    requires |syms| == |labels| && forall j :: 0 <= j < |labels| ==> syms[j].name == Some(labels[j])
    ensures Names(syms) == (true, labels)
  {
    if syms != [] {
      AllNamed(syms[..|syms| - 1], labels[..|labels| - 1]);
      assert labels == labels[..|labels| - 1] + [labels[|labels| - 1]];
    }
  }

  // ---- getSymNameByIdx ----

  /** The unsorted table at an index; a negative one is not checked for.  What it finds is the
      subject of Relocation.FdOfExactly. */
  function SymNameByIdx(syms: seq<Sym>, index: nat): Option<string> {
    if index >= |syms| then None else syms[index].name
  }
}
