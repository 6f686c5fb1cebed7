/** The binder filter: user space writes interface names and method ids into a kernel map, a probe
    looks transactions up in it, and the map is drained at the end.

    Names cross the boundary as 128-byte arrays.  Strings are sequences of bytes, as Rust and the
    kernel see them. */
module BinderFilter {
  import opened ByteStrings
  import opened Options
  import opened Words
  import opened KernelMap

  const MAX_STRING_LENGTH: nat := 128
  const MAX_CODES: nat := 10

  type Key = k: seq<byte> | |k| == 128 witness seq(128, _ => 0)

  type Codes = c: seq<Word64> | |c| == 10 witness seq(10, _ => 0)

  // ---- strings ----

  function Zeros(n: nat): (z: seq<byte>)
    ensures |z| == n && forall i :: 0 <= i < n ==> z[i] == 0
  {
    if n == 0 then [] else [0] + Zeros(n - 1)
  }

  // ---- the codec ----

  /** to_c_key: the first 128 bytes, padded with NULs. */
  function ToCKey(name: seq<byte>): Key {
    if |name| < MAX_STRING_LENGTH then name + Zeros(MAX_STRING_LENGTH - |name|)
    else name[..MAX_STRING_LENGTH]
  }

  /** from_c_key: the empty string where the bytes are no string. */
  function FromCKey(key: Key): seq<byte> {
    var s := BytesAsStr(key);
    if s.Some? then s.value else []
  }

  /** to_c_value: the first ten ids, padded with zeros. */
  function ToCValue(ids: seq<Word64>): Codes {
    seq<Word64>(MAX_CODES, (i: nat) => if i < |ids| then ids[i] else 0)
  }

  lemma FirstNulOfPadded(name: seq<byte>, n: nat)
    requires 0 !in name && n > 0
    ensures FirstNul(name + Zeros(n)) == |name|
  {
    var s := name + Zeros(n);
    assert s[..|name|] == name;
    FirstNulIs(s, |name|);
  }

  /** A name survives the way into a key and back exactly if it has no NUL and at most 127 bytes. */
  lemma NameRoundTrip(name: seq<byte>)
    requires ValidUtf8(name)
    ensures FromCKey(ToCKey(name)) == name <==> |name| < MAX_STRING_LENGTH && 0 !in name
  {
    var key := ToCKey(name);
    if |name| < MAX_STRING_LENGTH && 0 !in name {
      FirstNulOfPadded(name, MAX_STRING_LENGTH - |name|);
      assert key[..|name|] == name;
    }
  }

  /** A key that names itself when read and written back. */
  predicate RoundTrips(key: Key) { ToCKey(FromCKey(key)) == key }

  /** Those are the keys that hold a string followed by NULs only. */
  lemma RoundTripsExactly(key: Key)
    ensures RoundTrips(key) <==>
      var n := FirstNul(key);
      n < MAX_STRING_LENGTH && ValidUtf8(key[..n]) && key[n..] == Zeros(MAX_STRING_LENGTH - n)
  {
    var n := FirstNul(key);
    if n < MAX_STRING_LENGTH && ValidUtf8(key[..n]) {
      assert key == key[..n] + key[n..];
      assert ToCKey(FromCKey(key)) == key[..n] + Zeros(MAX_STRING_LENGTH - n);
    } else {
      assert ToCKey([]) == [] + Zeros(MAX_STRING_LENGTH);
      FirstNulOfPadded([], MAX_STRING_LENGTH);
      assert Zeros(MAX_STRING_LENGTH)[..0] == [];
    }
  }

  /** Whatever a key holds, what is written back for it names itself. */
  lemma WrittenBackRoundTrips(key: Key)
    ensures RoundTrips(ToCKey(FromCKey(key)))
  {
    var name := FromCKey(key);
    assert 0 !in name && |name| < MAX_STRING_LENGTH;
    NameRoundTrip(name);
  }

  // ---- writing filters ----

  /** A filter of the configuration: the name may be missing, ids are signed. */
  datatype Filter = Filter(name: Option<seq<byte>>, ids: seq<int>)

  predicate Writable(f: Filter) {
    && f.name.Some? && f.ids != []
    && forall i :: 0 <= i < |f.ids| ==> 0 <= f.ids[i] < 0x1_0000_0000_0000_0000
  }

  function IdsOf(f: Filter): seq<Word64>
    requires Writable(f)
  {
    seq<Word64>(|f.ids|, (i: nat) requires i < |f.ids| => f.ids[i])
  }

  /** write_binder_transaction_filter_to_binder_bpf_map on an idle map: it stops at the first
      filter that is incomplete or whose key is taken, and what was written before stays. */
  function WriteAll(filters: seq<Filter>, m: map<Key, Codes>): (bool, map<Key, Codes>) {
    if filters == [] then (true, m)
    else
      var f := filters[0];
      if !Writable(f) || ToCKey(f.name.value) in m then (false, m)
      else WriteAll(filters[1..], m[ToCKey(f.name.value) := ToCValue(IdsOf(f))])
  }

  method WriteFilters(filters: seq<Filter>, bpfMap: BpfMap<Key, Codes>) returns (ok: bool)
    requires bpfMap.Valid()
    modifies bpfMap
    ensures bpfMap.Valid()
    ensures filters == [] ==> !ok
    ensures filters != [] && old(bpfMap.others) == [] && old(bpfMap.faults) == [] ==>
      (ok, bpfMap.values) == WriteAll(filters, old(bpfMap.values))
  {
    if filters == [] {
      return false;
    }
    ghost var calm := bpfMap.others == [] && bpfMap.faults == [];
    for i := 0 to |filters|
      invariant bpfMap.Valid()
      invariant calm ==> bpfMap.others == [] && bpfMap.faults == []
      invariant calm ==> WriteAll(filters[i..], bpfMap.values) == WriteAll(filters, old(bpfMap.values))
    {
      assert filters[i..][1..] == filters[i + 1..];
      var f := filters[i];
      if !Writable(f) {
        return false;
      }
      var error := bpfMap.WriteNew(ToCKey(f.name.value), ToCValue(IdsOf(f)), 0);
      if error != 0 {
        return false;
      }
    }
    ok := true;
  }

  // ---- draining ----

  /** BinderInterfaceMapAccessor::drain on an idle map: the first key is read as a string, and
      deleted under the key that string is written as. */
  function DrainAll(keys: seq<Key>): (bool, seq<Key>)
    decreases |keys|
  {
    if keys == [] then (true, [])
    else
      var key := ToCKey(FromCKey(keys[0]));
      if key !in keys then (false, keys)
      else
        WithoutSome(keys, {key}, key);
        DrainAll(Without(keys, {key}))
  }

  method Drain(bpfMap: BpfMap<Key, Codes>) returns (ok: bool)
    requires bpfMap.Valid()
    modifies bpfMap
    ensures bpfMap.OnlyDeletes()
    ensures ok ==> bpfMap.keys == []
    ensures old(bpfMap.others) == [] && old(bpfMap.faults) == [] ==> (ok, bpfMap.keys) == DrainAll(old(bpfMap.keys))
  {
    ghost var calm := bpfMap.others == [] && bpfMap.faults == [];
    while true
      invariant bpfMap.OnlyDeletes()
      invariant calm ==> bpfMap.others == [] && bpfMap.faults == []
      invariant calm ==> DrainAll(bpfMap.keys) == DrainAll(old(bpfMap.keys))
      decreases |bpfMap.keys|
    {
      var first := bpfMap.GetFirstKey();
      if first.Err? {
        return first.code == ENOENT;
      }
      var key := FromCKey(first.value);
      var error := bpfMap.DeleteValue(ToCKey(key));
      if error != 0 {
        return false;
      }
    }
  }

  /** Draining an idle map succeeds exactly if every key in it names itself, and then leaves it
      empty. */
  lemma {:induction false} DrainExact(keys: seq<Key>)
    requires Distinct(keys)
    ensures DrainAll(keys).0 <==> forall k :: k in keys ==> RoundTrips(k)
    ensures DrainAll(keys).0 ==> DrainAll(keys).1 == []
    decreases |keys|
  {
    if keys != [] {
      var key := ToCKey(FromCKey(keys[0]));
      if key in keys {
        WrittenBackRoundTrips(keys[0]);
        WithoutSome(keys, {key}, key);
        WithoutDistinct(keys, {key});
        WithoutMembers(keys, {key});
        DrainExact(Without(keys, {key}));
      } else {
        assert !RoundTrips(keys[0]);
      }
    }
  }

  /** The keys that filters with proper names put into an empty map can all be drained. */
  lemma {:induction false} WrittenKeys(filters: seq<Filter>, m: map<Key, Codes>)
    requires forall k :: k in m ==> RoundTrips(k)
    requires forall f :: f in filters && f.name.Some? ==>
      ValidUtf8(f.name.value) && 0 !in f.name.value && |f.name.value| < MAX_STRING_LENGTH
    ensures forall k :: k in WriteAll(filters, m).1 ==> RoundTrips(k)
  {
    if filters != [] {
      var f := filters[0];
      if Writable(f) && ToCKey(f.name.value) !in m {
        NameRoundTrip(f.name.value);
        forall g | g in filters[1..] ensures g in filters {
        }
        WrittenKeys(filters[1..], m[ToCKey(f.name.value) := ToCValue(IdsOf(f))]);
      }
    }
  }

  // ---- the probe ----

  /** What recordString puts in front of the NULs: at most 127 bytes, up to the first NUL. */
  function Recorded(content: seq<byte>): (s: seq<byte>)
    ensures |s| < MAX_STRING_LENGTH && 0 !in s
  {
    var bounded := if |content| < MAX_STRING_LENGTH then content else content[..MAX_STRING_LENGTH - 1];
    bounded[..FirstNul(bounded)]
  }

  /** The key of a descriptor in the probe, whose key starts zeroed. */
  function DescriptorKey(content: seq<byte>): Key {
    Recorded(content) + Zeros(MAX_STRING_LENGTH - |Recorded(content)|)
  }

  /** The prefix that is recorded of a string in memory: without NULs, and ended by the 127 bytes
      there is room for, by the end of the string or by a NUL. */
  predicate IsRecorded(s: seq<byte>, content: seq<byte>) {
    && |s| <= 127 && |s| <= |content| && s == content[..|s|] && 0 !in s
    && (|s| == 127 || |s| == |content| || content[|s|] == 0)
  }

  lemma RecordedExactly(s: seq<byte>, content: seq<byte>)
    ensures s == Recorded(content) <==> IsRecorded(s, content)
  {
    if IsRecorded(s, content) {
      RecordedIs(content, |s|);
    } else {
      var bounded := if |content| < MAX_STRING_LENGTH then content else content[..MAX_STRING_LENGTH - 1];
      assert bounded[..|Recorded(content)|] == content[..|Recorded(content)|];
    }
  }

  /** recordString: `count` is the length field of the Java string, twice its length in bytes;
      memory from the string's content on is `memory`. */
  method RecordString(count: Word32, memory: seq<byte>, dest: array<byte>)
    requires dest.Length == MAX_STRING_LENGTH
    requires count / 2 <= |memory|
    modifies dest
    ensures var s := Recorded(memory[..count / 2]);
      dest[..|s| + 1] == s + [0] && dest[|s| + 1..] == old(dest[|s| + 1..])
  {
    hide Recorded, FirstNul;
    var length := count / 2;
    var size := if MAX_STRING_LENGTH < length + 1 then MAX_STRING_LENGTH else length + 1;
    ghost var content := memory[..length];
    ghost var bounded := if |content| < MAX_STRING_LENGTH then content else content[..MAX_STRING_LENGTH - 1];
    assert bounded == memory[..size - 1];
    var i := 0;
    while i < size - 1 && memory[i] != 0
      invariant i <= size - 1
      invariant forall k :: 0 <= k < i ==> dest[k] == memory[k]
      invariant forall k :: i <= k < dest.Length ==> dest[k] == old(dest[k])
      invariant 0 !in memory[..i]
    {
      dest[i] := memory[i];
      i := i + 1;
      assert memory[..i] == memory[..i - 1] + [memory[i - 1]];
    }
    dest[i] := 0;
    assert content[..i] == memory[..i];
    RecordedIs(content, i);
    Terminated(old(dest[..]), memory, i, dest[..]);
    assert dest[..][..i + 1] == dest[..i + 1] && dest[..][i + 1..] == dest[i + 1..];
  }

  lemma Terminated(before: seq<byte>, memory: seq<byte>, i: nat, after: seq<byte>)
    requires i < |before| == |after| && i <= |memory| && after[i] == 0
    requires forall k :: 0 <= k < i ==> after[k] == memory[k]
    requires forall k :: i < k < |after| ==> after[k] == before[k]
    ensures after[..i + 1] == memory[..i] + [0] && after[i + 1..] == before[i + 1..]
  {
  }

  lemma RecordedIs(content: seq<byte>, i: nat)
    requires i <= |content| && i < MAX_STRING_LENGTH && 0 !in content[..i]
    requires i == |content| || i == MAX_STRING_LENGTH - 1 || content[i] == 0
    ensures Recorded(content) == content[..i]
  {
    var bounded := if |content| < MAX_STRING_LENGTH then content else content[..MAX_STRING_LENGTH - 1];
    assert bounded[..i] == content[..i];
    PrefixMembers(bounded, i);
    PrefixMembers(bounded, FirstNul(bounded));
  }

  /** The code is one of these, and no zero is before it. */
  predicate BeforeZero(code: Word64, codes: seq<int>) {
    exists i :: 0 <= i < |codes| && codes[i] == code && forall j :: 0 <= j <= i ==> codes[j] != 0
  }

  datatype Report = Report(descriptor: Key, code: Word64)

  /** The body of exec_transact_internal after the key is built: reports at most once, and returns 1
      only when it could not reserve space. */
  method ExecTransact(interfaces: map<Key, Codes>, key: Key, code: Word64, canReserve: bool)
    returns (ret: int, reports: seq<Report>)
    ensures ret == if key in interfaces && BeforeZero(code, interfaces[key]) && !canReserve then 1 else 0
    ensures reports ==
      if key in interfaces && BeforeZero(code, interfaces[key]) && canReserve then [Report(key, code)] else []
  {
    if key !in interfaces {
      return 0, [];
    }
    var value := interfaces[key];
    for i := 0 to MAX_CODES
      invariant forall j :: 0 <= j < i ==> value[j] != 0 && value[j] != code
    {
      if value[i] == 0 {
        return 0, [];
      }
      if value[i] != code {
        continue;
      }
      if !canReserve {
        return 1, [];
      }
      return 0, [Report(key, code)];
    }
    return 0, [];
  }

  // ---- end to end ----

  /** A written name and a looked-up descriptor meet in one key exactly if the name is what the
      probe records of the descriptor. */
  lemma KeysMeet(name: seq<byte>, content: seq<byte>)
    requires 0 !in name
    ensures ToCKey(name) == DescriptorKey(content) <==> name == Recorded(content)
  {
    var s := Recorded(content);
    var key := DescriptorKey(content);
    FirstNulOfPadded(s, MAX_STRING_LENGTH - |s|);
    assert key[..|s|] == s;
    if |name| < MAX_STRING_LENGTH {
      FirstNulOfPadded(name, MAX_STRING_LENGTH - |name|);
      assert ToCKey(name)[..|name|] == name;
    } else {
      assert key[MAX_STRING_LENGTH - 1] == 0;
      assert ToCKey(name)[MAX_STRING_LENGTH - 1] == name[MAX_STRING_LENGTH - 1];
    }
  }

  predicate WritesKey(f: Filter, key: Key) { Writable(f) && ToCKey(f.name.value) == key }

  lemma {:induction false} WrittenEntries(filters: seq<Filter>, m: map<Key, Codes>, key: Key)
    requires WriteAll(filters, m).0
    ensures forall i :: 0 <= i < |filters| ==> Writable(filters[i])
    ensures var w := WriteAll(filters, m).1;
      && (key in w <==> key in m || exists i :: 0 <= i < |filters| && WritesKey(filters[i], key))
      && (key in m ==> w[key] == m[key])
      && forall i :: 0 <= i < |filters| && WritesKey(filters[i], key) ==>
           key in w && w[key] == ToCValue(IdsOf(filters[i]))
  {
    if filters != [] {
      var f := filters[0];
      var m1 := m[ToCKey(f.name.value) := ToCValue(IdsOf(f))];
      WrittenEntries(filters[1..], m1, key);
      assert forall i :: 0 < i < |filters| ==> filters[i] == filters[1..][i - 1];
    }
  }

  /** A name and at least one id, and every id fits the unsigned 64 bits of a code. */
  predicate Complete(f: Filter) {
    f.name.Some? && |f.ids| > 0 && forall id :: id in f.ids ==> 0 <= id <= 0xFFFF_FFFF_FFFF_FFFF
  }

  /** Two names take different keys unless they are equal, or both so long that they are cut to the
      same 128 bytes. */
  lemma KeysDiffer(a: seq<byte>, b: seq<byte>)
    requires 0 !in a && 0 !in b
    ensures ToCKey(a) == ToCKey(b) <==> a == b || (|a| >= 128 && |b| >= 128 && a[..128] == b[..128])
  {
    KeyFull(a);
    KeyFull(b);
    var x, y := ToCKey(a), ToCKey(b);
    if x == y && |a| < 128 {
      FirstNulOfPadded(a, 128 - |a|);
      FirstNulOfPadded(b, 128 - |b|);
      assert x[..|a|] == a && y[..|b|] == b;
    }
  }

  lemma KeyFull(name: seq<byte>)
    requires 0 !in name
    ensures ToCKey(name)[127] == 0 <==> |name| < 128
  {
    if |name| >= 128 {
      assert ToCKey(name)[127] == name[127];
    }
  }

  lemma CompleteIsWritable(f: Filter)
    ensures Writable(f) <==> Complete(f)
  {
    assert forall i :: 0 <= i < |f.ids| ==> f.ids[i] in f.ids;
    assert forall id :: id in f.ids ==> exists i :: 0 <= i < |f.ids| && f.ids[i] == id;
  }

  /** Everything is written exactly if every filter is complete, and no two keys are the same and
      none is taken. */
  lemma {:induction false} WritesExactly(filters: seq<Filter>, m: map<Key, Codes>)
    ensures WriteAll(filters, m).0 <==>
      && (forall i :: 0 <= i < |filters| ==> Complete(filters[i]) && ToCKey(filters[i].name.value) !in m)
      && (forall i, j :: 0 <= i < j < |filters| ==> ToCKey(filters[i].name.value) != ToCKey(filters[j].name.value))
  {
    hide ToCKey, ToCValue, IdsOf;
    if filters != [] {
      var f, rest := filters[0], filters[1..];
      CompleteIsWritable(f);
      if Writable(f) && ToCKey(f.name.value) !in m {
        WritesExactly(rest, m[ToCKey(f.name.value) := ToCValue(IdsOf(f))]);
        assert forall i :: 0 < i < |filters| ==> filters[i] == rest[i - 1];
      }
    }
  }

  /** A drain that fails has deleted the keys in front of the first that does not name itself, and
      the one that it names instead. */
  lemma {:induction false} DrainStops(keys: seq<Key>, n: nat)
    requires Distinct(keys) && n < |keys| && !RoundTrips(keys[n])
    requires forall i :: 0 <= i < n ==> RoundTrips(keys[i])
    ensures DrainAll(keys) == (false, Without(keys[n..], {ToCKey(FromCKey(keys[n]))}))
    decreases n
  {
    hide ToCKey, FromCKey, Without;
    if n > 0 {
      FirstGone(keys);
      DrainStops(keys[1..], n - 1);
      assert keys[1..][n - 1..] == keys[n..];
      DrainFirst(keys);
    } else {
      var key := ToCKey(FromCKey(keys[0]));
      assert keys[0..] == keys;
      var left := Without(keys, {key});
      DrainFirst(keys);
      if key in keys {
        WithoutMembers(keys, {key});
        FirstStays(keys, key);
        DrainFirst(left);
      } else {
        WithoutNone(keys, {key});
      }
    }
  }

  lemma DrainFirst(keys: seq<Key>)
    requires keys != []
    ensures var key := ToCKey(FromCKey(keys[0]));
      DrainAll(keys) == if key in keys then DrainAll(Without(keys, {key})) else (false, keys)
  {
    hide ToCKey, FromCKey, Without;
    var key := ToCKey(FromCKey(keys[0]));
    if key in keys {
      WithoutSome(keys, {key}, key);
    }
  }

  lemma FirstGone(keys: seq<Key>)
    requires keys != [] && Distinct(keys)
    ensures Without(keys, {keys[0]}) == keys[1..]
  {
    WithoutNone(keys[1..], {keys[0]});
  }

  lemma FirstStays(keys: seq<Key>, key: Key)
    requires keys != [] && key != keys[0]
    ensures Without(keys, {key}) != [] && Without(keys, {key})[0] == keys[0]
  {
  }

  lemma ShortNamesRoundTrip(name: seq<byte>)
    requires ValidUtf8(name) && 0 !in name
    ensures RoundTrips(ToCKey(name)) <==> |name| < MAX_STRING_LENGTH
  {
    NameRoundTrip(name);
    if |name| >= MAX_STRING_LENGTH {
      var key := ToCKey(name);
      assert key[0] == name[0] && 0 !in key;
      assert BytesAsStr(key) == None;
      assert ToCKey([])[0] == 0;
    }
  }

  /** From the configuration to the end: what filters with NUL-free names wrote into an empty map is
      drained exactly if every name has at most 127 bytes. */
  lemma FiltersDrainExactly(filters: seq<Filter>, keys: seq<Key>)
    requires WriteAll(filters, map[]).0
    requires forall f :: f in filters && f.name.Some? ==> ValidUtf8(f.name.value) && 0 !in f.name.value
    requires Distinct(keys) && forall k :: k in keys <==> k in WriteAll(filters, map[]).1
    ensures DrainAll(keys).0 <==>
      forall f :: f in filters ==> f.name.Some? && |f.name.value| < MAX_STRING_LENGTH
  {
    hide WriteAll, DrainAll, RoundTrips, ToCKey, FromCKey, ValidUtf8;
    DrainExact(keys);
    forall i | 0 <= i < |filters|
      ensures Writable(filters[i]) && ToCKey(filters[i].name.value) in keys
      ensures RoundTrips(ToCKey(filters[i].name.value)) <==> |filters[i].name.value| < MAX_STRING_LENGTH
    {
      assert filters[i] in filters;
      WrittenEntries(filters, map[], if filters[i].name.Some? then ToCKey(filters[i].name.value) else ToCKey([]));
      assert WritesKey(filters[i], ToCKey(filters[i].name.value));
      ShortNamesRoundTrip(filters[i].name.value);
    }
    forall k | k in keys
      ensures exists i :: 0 <= i < |filters| && WritesKey(filters[i], k)
    {
      WrittenEntries(filters, map[], k);
    }
  }

  lemma {:induction false} AsciiIsValid(s: seq<byte>)
    requires forall i :: 0 <= i < |s| ==> s[i] <= 0x7F
    ensures ValidUtf8(s)
  {
    if s != [] {
      AsciiIsValid(s[1..]);
    }
  }

  /** A filter with a longer name is written, and then cannot be drained. */
  lemma LongNameStays(f: Filter)
    requires Writable(f) && ValidUtf8(f.name.value) && 0 !in f.name.value && |f.name.value| >= MAX_STRING_LENGTH
    ensures var key := ToCKey(f.name.value);
      WriteAll([f], map[]) == (true, map[key := ToCValue(IdsOf(f))]) && DrainAll([key]) == (false, [key])
  {
    hide ToCKey, FromCKey, ToCValue, ValidUtf8, RoundTrips;
    var key := ToCKey(f.name.value);
    ShortNamesRoundTrip(f.name.value);
    NothingToWrite(map[key := ToCValue(IdsOf(f))]);
    assert [f][1..] == [];
    NotWrittenBack(key);
  }

  lemma NothingToWrite(m: map<Key, Codes>)
    ensures WriteAll([], m) == (true, m)
  {
  }

  lemma NotWrittenBack(key: Key)
    ensures RoundTrips(key) <==> ToCKey(FromCKey(key)) == key
  {
  }

  /** Such a filter: 128 times the letter a. */
  lemma LongNameExists(f: Filter)
    requires f == Filter(Some(seq(128, _ => 97)), [1])
    ensures Writable(f) && ValidUtf8(f.name.value) && 0 !in f.name.value && |f.name.value| >= MAX_STRING_LENGTH
  {
    hide ValidUtf8;
    AsciiIsValid(f.name.value);
  }

  /** Asked for: some filter has as its name what the probe records of the descriptor, and the code
      is among its first ten ids with no zero before it. */
  ghost predicate Wanted(filters: seq<Filter>, content: seq<byte>, code: Word64) {
    exists f :: f in filters && f.name.Some? && IsRecorded(f.name.value, content) && AsksFor(f.ids, code)
  }

  ghost predicate AsksFor(ids: seq<int>, code: Word64) {
    exists i :: 0 <= i < 10 && i < |ids| && ids[i] == code && forall j :: 0 <= j <= i ==> ids[j] != 0
  }

  /** The whole pipeline is exact, for names and descriptors of any length. */
  lemma PipelineExact(filters: seq<Filter>, content: seq<byte>, code: Word64)
    requires WriteAll(filters, map[]).0
    requires forall f :: f in filters && f.name.Some? ==> 0 !in f.name.value
    ensures var m := WriteAll(filters, map[]).1;
      var key := DescriptorKey(content);
      (key in m && BeforeZero(code, m[key])) <==> Wanted(filters, content, code)
  {
    hide WriteAll, Recorded, IsRecorded, ToCKey, ToCValue, BeforeZero, AsksFor, IdsOf;
    var m := WriteAll(filters, map[]).1;
    var key := DescriptorKey(content);
    WrittenEntries(filters, map[], key);
    forall f | f in filters
      ensures Writable(f) && (WritesKey(f, key) <==> IsRecorded(f.name.value, content))
      ensures WritesKey(f, key) ==> key in m && (BeforeZero(code, m[key]) <==> AsksFor(f.ids, code))
    {
      var i :| 0 <= i < |filters| && filters[i] == f;
      KeysMeet(f.name.value, content);
      RecordedExactly(f.name.value, content);
      ComparedIds(f, code);
    }
    if key in m && BeforeZero(code, m[key]) {
      var i :| 0 <= i < |filters| && WritesKey(filters[i], key);
      assert filters[i] in filters;
    }
  }

  /** The ids the probe compares with: the first ten given, up to the first zero. */
  lemma ComparedIds(f: Filter, code: Word64)
    requires Writable(f)
    ensures BeforeZero(code, ToCValue(IdsOf(f))) <==> AsksFor(f.ids, code)
  {
    var codes := ToCValue(IdsOf(f));
    assert forall i :: 0 <= i < 10 && i < |f.ids| ==> codes[i] == f.ids[i];
    assert forall i :: |f.ids| <= i < 10 ==> codes[i] == 0;
    if BeforeZero(code, codes) {
      var i :| 0 <= i < |codes| && codes[i] == code && forall j :: 0 <= j <= i ==> codes[j] != 0;
      assert forall j :: 0 <= j <= i ==> codes[j] == f.ids[j];
    }
    if AsksFor(f.ids, code) {
      var i :| 0 <= i < 10 && i < |f.ids| && f.ids[i] == code && forall j :: 0 <= j <= i ==> f.ids[j] != 0;
      assert forall j :: 0 <= j <= i ==> codes[j] == f.ids[j];
    }
  }

  /** exec_transact_internal as a whole, over the map that the filters were written to: the key is
      zeroed, the descriptor recorded into it and looked up.  It reports at most once, and does so
      exactly if a filter asks for the transaction and there is space. */
  method ExecTransactInternal(interfaces: map<Key, Codes>, count: Word32, memory: seq<byte>, code: Word64,
      canReserve: bool, ghost filters: seq<Filter>)
    returns (ret: int, reports: seq<Report>)
    requires count / 2 <= |memory|
    requires WriteAll(filters, map[]) == (true, interfaces)
    requires forall f :: f in filters && f.name.Some? ==> 0 !in f.name.value
    ensures |reports| <= 1 && (reports != [] <==> canReserve && Wanted(filters, memory[..count / 2], code))
    ensures forall r :: r in reports ==> r.code == code && Holds(r.descriptor, memory[..count / 2])
    ensures ret == if Wanted(filters, memory[..count / 2], code) && !canReserve then 1 else 0
  {
    hide WriteAll, Recorded, BeforeZero, Wanted, Holds;
    var buffer := new byte[MAX_STRING_LENGTH](_ => 0);
    RecordString(count, memory, buffer);
    KeyInBuffer(buffer[..], memory[..count / 2]);
    PipelineExact(filters, memory[..count / 2], code);
    HoldsDescriptor(memory[..count / 2]);
    ret, reports := ExecTransact(interfaces, buffer[..], code, canReserve);
  }

  /** What is recorded of the string, and NULs. */
  ghost predicate Holds(key: Key, content: seq<byte>) {
    exists s :: IsRecorded(s, content) && key[..|s|] == s && forall i :: |s| <= i < 128 ==> key[i] == 0
  }

  lemma HoldsDescriptor(content: seq<byte>)
    ensures Holds(DescriptorKey(content), content)
  {
    hide IsRecorded;
    RecordedExactly(Recorded(content), content);
    assert DescriptorKey(content)[..|Recorded(content)|] == Recorded(content);
  }

  lemma KeyInBuffer(buffer: seq<byte>, content: seq<byte>)
    requires |buffer| == MAX_STRING_LENGTH
    requires var s := Recorded(content);
      buffer[..|s| + 1] == s + [0] && forall i :: |s| < i < MAX_STRING_LENGTH ==> buffer[i] == 0
    ensures buffer == DescriptorKey(content)
  {
    var s := Recorded(content);
    forall i | 0 <= i < MAX_STRING_LENGTH ensures buffer[i] == DescriptorKey(content)[i] {
      if i <= |s| {
        assert buffer[..|s| + 1][i] == (s + [0])[i];
      }
    }
  }

  /** For a descriptor of at most 127 bytes without NUL, what is recorded is the descriptor; a
      longer one is taken for its first 127 bytes. */
  lemma RecordedDescriptor(content: seq<byte>)
    requires 0 !in content
    ensures |content| < MAX_STRING_LENGTH ==> Recorded(content) == content
    ensures |content| >= MAX_STRING_LENGTH ==> Recorded(content) == content[..MAX_STRING_LENGTH - 1]
  {
    if |content| < MAX_STRING_LENGTH {
      RecordedIs(content, |content|);
      assert content[..|content|] == content;
    } else {
      RecordedIs(content, MAX_STRING_LENGTH - 1);
    }
  }
}
