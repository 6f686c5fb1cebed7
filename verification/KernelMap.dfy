/** A kernel hash map as user space sees it, and the loops of BpfMap.h over it.

    The map enumerates its keys in some order.  The key after k is the next one if k is present
    and the first one if it is not.  Other processes may delete keys before any system call, and a
    system call may fail with an error of its own; both come from schedules. */
module KernelMap {

  const ENOENT: int := 2
  const EEXIST: int := 17

  datatype Result<+T> = Ok(value: T) | Err(code: int)

  // ---- enumeration ----

  ghost predicate Distinct<K>(keys: seq<K>) {
    forall i, j :: 0 <= i < j < |keys| ==> keys[i] != keys[j]
  }

  /** Where k is, or |keys| if it is absent. */
  function Find<K(==, !new)>(keys: seq<K>, k: K): (i: nat)
    ensures i <= |keys|
    ensures i < |keys| ==> keys[i] == k
    ensures forall j :: 0 <= j < i ==> keys[j] != k
  {
    if keys == [] then 0 else if keys[0] == k then 0 else 1 + Find(keys[1..], k)
  }

  lemma FindAt<K(!new)>(keys: seq<K>, i: nat)
    requires Distinct(keys) && i < |keys|
    ensures Find(keys, keys[i]) == i
  {
  }

  function First<K>(keys: seq<K>): Result<K> {
    if keys == [] then Err(ENOENT) else Ok(keys[0])
  }

  function Next<K(==, !new)>(keys: seq<K>, k: K): Result<K> {
    var i := Find(keys, k);
    if i == |keys| then First(keys)
    else if i + 1 < |keys| then Ok(keys[i + 1])
    else Err(ENOENT)
  }

  /** Deleting keeps the order of what remains. */
  function Without<K(==, !new)>(keys: seq<K>, ks: set<K>): (r: seq<K>)
    ensures forall k :: k in r <==> k in keys && k !in ks
    ensures r == keys || |r| < |keys|
  {
    if keys == [] then []
    else (if keys[0] in ks then [] else [keys[0]]) + Without(keys[1..], ks)
  }

  lemma {:induction false} WithoutDistinct<K(!new)>(keys: seq<K>, ks: set<K>)
    requires Distinct(keys)
    ensures Distinct(Without(keys, ks))
  {
    if keys != [] {
      WithoutDistinct(keys[1..], ks);
    }
  }

  lemma {:induction false} WithoutAppend<K(!new)>(a: seq<K>, b: seq<K>, ks: set<K>)
    ensures Without(a + b, ks) == Without(a, ks) + Without(b, ks)
  {
    if a == [] {
      assert a + b == b;
    } else {
      assert (a + b)[1..] == a[1..] + b;
      WithoutAppend(a[1..], b, ks);
    }
  }

  lemma {:induction false} WithoutNone<K(!new)>(keys: seq<K>, ks: set<K>)
    requires forall k :: k in keys ==> k !in ks
    ensures Without(keys, ks) == keys
  {
    if keys != [] {
      assert keys[0] in keys;
      WithoutNone(keys[1..], ks);
    }
  }

  lemma {:induction false} WithoutSome<K(!new)>(keys: seq<K>, ks: set<K>, k: K)
    requires k in keys && k in ks
    ensures |Without(keys, ks)| < |keys|
  {
    if keys[0] != k {
      WithoutSome(keys[1..], ks, k);
    }
  }

  /** What comes before k after a deletion came before it already. */
  lemma WithoutBefore<K(!new)>(keys: seq<K>, ks: set<K>, i: nat)
    requires Distinct(keys) && i < |keys| && keys[i] !in ks
    ensures var r := Without(keys, ks);
      var n := |Without(keys[..i], ks)|;
      n < |r| && r[n] == keys[i] && r[..n] == Without(keys[..i], ks) && Find(r, keys[i]) == n
  {
    var r := Without(keys, ks);
    assert keys == keys[..i] + ([keys[i]] + keys[i + 1..]);
    WithoutAppend(keys[..i], [keys[i]] + keys[i + 1..], ks);
    WithoutAppend([keys[i]], keys[i + 1..], ks);
    WithoutDistinct(keys, ks);
    FindAt(r, |Without(keys[..i], ks)|);
  }

  // ---- iteration, as a function ----

  /** What a filter does when called: it deletes keys, and reports 0 or an error code. */
  datatype Reaction<!K> = Reaction(deletes: set<K>, error: int)

  datatype Iteration<K> = Iteration(visited: seq<K>, keys: seq<K>, error: int)

  /** How much of a pass is left, if no key is deleted; a key no longer present restarts it. */
  function PassLeft<K(==, !new)>(keys: seq<K>, cur: Result<K>): nat {
    match cur
    case Err(_) => 0
    case Ok(k) => if Find(keys, k) == |keys| then |keys| + 1 else |keys| - Find(keys, k)
  }

  lemma NextIsCloser<K(!new)>(keys: seq<K>, k: K)
    requires Distinct(keys)
    ensures PassLeft(keys, Next(keys, k)) < PassLeft(keys, Ok(k))
  {
    var i := Find(keys, k);
    if i + 1 < |keys| {
      FindAt(keys, i + 1);
    } else if i == |keys| && keys != [] {
      FindAt(keys, 0);
    }
  }

  /** The loop of BpfMap::iterate: the successor is fetched, then the filter runs.  It ends for
      every filter that does not insert. */
  function Visits<K(==, !new)>(keys: seq<K>, cur: Result<K>, filter: (K, nat) -> Reaction<K>, n: nat): Iteration<K>
    requires Distinct(keys)
    decreases |keys|, PassLeft(keys, cur)
  {
    match cur
    case Err(code) => Iteration([], keys, if code == ENOENT then 0 else code)
    case Ok(k) =>
      var next := Next(keys, k);
      var reaction := filter(k, n);
      var keys' := Without(keys, reaction.deletes);
      WithoutDistinct(keys, reaction.deletes);
      NextIsCloser(keys, k);
      if reaction.error != 0 then Iteration([k], keys', reaction.error)
      else
        var rest := Visits(keys', next, filter, n + 1);
        Iteration([k] + rest.visited, rest.keys, rest.error)
  }

  /** One pass over a fixed list, the filter deciding about each key in turn. */
  function Sweep<K(==, !new)>(keys: seq<K>, filter: (K, nat) -> Reaction<K>, n: nat): Iteration<K> {
    if keys == [] then Iteration([], [], 0)
    else
      var k := keys[0];
      var reaction := filter(k, n);
      var kept := if k in reaction.deletes then [] else [k];
      if reaction.error != 0 then Iteration([k], kept + keys[1..], reaction.error)
      else
        var rest := Sweep(keys[1..], filter, n + 1);
        Iteration([k] + rest.visited, kept + rest.keys, rest.error)
  }

  /** The filter deletes at most the key it is called with. */
  ghost predicate DeletesOwn<K(!new)>(filter: (K, nat) -> Reaction<K>) {
    forall k, n :: filter(k, n).deletes <= {k}
  }

  lemma DistinctAppend<K(!new)>(kept: seq<K>, rest: seq<K>, i: nat)
    requires Distinct(kept + rest) && i < |rest|
    ensures rest[i] !in kept && rest[i] !in rest[..i] && rest[i] !in rest[i + 1..]
    ensures Find(kept + rest, rest[i]) == |kept| + i
  {
    var all := kept + rest;
    assert all[|kept| + i] == rest[i];
    forall j | 0 <= j < |kept| ensures kept[j] != rest[i] {
      assert all[j] == kept[j];
    }
    forall j | 0 <= j < |rest| && j != i ensures rest[j] != rest[i] {
      assert all[|kept| + j] == rest[j];
    }
    FindAt(all, |kept| + i);
  }

  /** Deleting the current key leaves what was kept before it and what is still to come. */
  lemma WithoutCurrent<K(!new)>(kept: seq<K>, rest: seq<K>, ks: set<K>)
    requires rest != [] && Distinct(kept + rest) && ks <= {rest[0]}
    ensures Without(kept + rest, ks) == kept + (if rest[0] in ks then [] else [rest[0]]) + rest[1..]
  {
    hide Find, Without;
    DistinctAppend(kept, rest, 0);
    assert kept + rest == kept + ([rest[0]] + rest[1..]);
    WithoutAppend(kept, [rest[0]] + rest[1..], ks);
    WithoutAppend([rest[0]], rest[1..], ks);
    WithoutNone(kept, ks);
    WithoutOne(rest[0], ks);
    WithoutNone(rest[1..], ks);
    AppendAssoc(kept, if rest[0] in ks then [] else [rest[0]], rest[1..]);
  }

  lemma WithoutOne<K(!new)>(k: K, ks: set<K>)
    ensures Without([k], ks) == if k in ks then [] else [k]
  {
  }

  lemma VisitsStep<K(!new)>(keys: seq<K>, k: K, filter: (K, nat) -> Reaction<K>, n: nat)
    requires Distinct(keys)
    ensures Distinct(Without(keys, filter(k, n).deletes))
    ensures PassLeft(keys, Next(keys, k)) < PassLeft(keys, Ok(k))
    ensures Visits(keys, Ok(k), filter, n) ==
      var keys' := Without(keys, filter(k, n).deletes);
      if filter(k, n).error != 0 then Iteration([k], keys', filter(k, n).error)
      else
        var rest := Visits(keys', Next(keys, k), filter, n + 1);
        Iteration([k] + rest.visited, rest.keys, rest.error)
  {
    WithoutDistinct(keys, filter(k, n).deletes);
    NextIsCloser(keys, k);
  }

  lemma AppendAssoc<T>(a: seq<T>, b: seq<T>, c: seq<T>)
    ensures a + b + c == a + (b + c)
  {
  }

  lemma NextInRest<K(!new)>(kept: seq<K>, rest: seq<K>)
    requires rest != [] && Distinct(kept + rest)
    ensures Next(kept + rest, rest[0]) == First(rest[1..])
  {
    DistinctAppend(kept, rest, 0);
    if |rest| > 1 {
      assert (kept + rest)[|kept| + 1] == rest[1];
    }
  }

  lemma {:induction false} VisitsIsSweep<K(!new)>(kept: seq<K>, rest: seq<K>, filter: (K, nat) -> Reaction<K>, n: nat)
    requires Distinct(kept + rest) && DeletesOwn(filter)
    ensures var v, w := Visits(kept + rest, First(rest), filter, n), Sweep(rest, filter, n);
      v.visited == w.visited && v.keys == kept + w.keys && v.error == w.error
    decreases |rest|
  {
    if rest != [] {
      hide Visits, Without, Next, Find;
      var k := rest[0];
      var own := if k in filter(k, n).deletes then [] else [k];
      VisitsStep(kept + rest, k, filter, n);
      WithoutCurrent(kept, rest, filter(k, n).deletes);
      NextInRest(kept, rest);
      AppendAssoc(kept, own, rest[1..]);
      if filter(k, n).error == 0 {
        VisitsIsSweep(kept + own, rest[1..], filter, n + 1);
        AppendAssoc(kept, own, Sweep(rest[1..], filter, n + 1).keys);
      }
    } else {
      assert kept + [] == kept;
    }
  }

  /** Iteration under deletion: if the filter deletes at most its own key, iterating is one pass
      over the initial keys, each visited once and in order, up to the first error; what remains is
      what was not deleted. */
  lemma IterateIsSweep<K(!new)>(keys: seq<K>, filter: (K, nat) -> Reaction<K>)
    requires Distinct(keys) && DeletesOwn(filter)
    ensures Visits(keys, First(keys), filter, 0) == Sweep(keys, filter, 0)
  {
    assert [] + keys == keys;
    VisitsIsSweep([], keys, filter, 0);
    assert [] + Sweep(keys, filter, 0).keys == Sweep(keys, filter, 0).keys;
  }

  /** The call for key m is the first to report an error, or there is none up to the end. */
  predicate FailsAt<K(!new)>(keys: seq<K>, filter: (K, nat) -> Reaction<K>, n: nat, m: nat) {
    && m <= |keys| && (forall i :: 0 <= i < m ==> filter(keys[i], n + i).error == 0)
    && (m < |keys| ==> filter(keys[m], n + m).error != 0)
  }

  /** The pass sees the keys in order up to the first call that reports an error, and returns that
      error; gone are exactly the keys seen that their own call deletes. */
  lemma SweepExactly<K(!new)>(keys: seq<K>, filter: (K, nat) -> Reaction<K>, n: nat, m: nat)
    requires Distinct(keys) && FailsAt(keys, filter, n, m)
    ensures var w, seen := Sweep(keys, filter, n), if m < |keys| then m + 1 else m;
      && w.visited == keys[..seen]
      && w.error == (if m < |keys| then filter(keys[m], n + m).error else 0)
      && (forall i :: 0 <= i < |keys| ==>
            (keys[i] in w.keys <==> i >= seen || keys[i] !in filter(keys[i], n + i).deletes))
      && (forall k :: k in w.keys ==> k in keys)
  {
    hide Sweep, FailsAt, Distinct;
    SweepVisits(keys, filter, n, m);
    forall i | 0 <= i < |keys|
      ensures keys[i] in Sweep(keys, filter, n).keys
        <==> i >= (if m < |keys| then m + 1 else m) || keys[i] !in filter(keys[i], n + i).deletes
    {
      SweepKeeps(keys, filter, n, m, i);
    }
  }

  lemma {:induction false} SweepVisits<K(!new)>(keys: seq<K>, filter: (K, nat) -> Reaction<K>, n: nat, m: nat)
    requires FailsAt(keys, filter, n, m)
    ensures var w := Sweep(keys, filter, n);
      && w.visited == keys[..if m < |keys| then m + 1 else m]
      && w.error == (if m < |keys| then filter(keys[m], n + m).error else 0)
      && (forall k :: k in w.keys ==> k in keys)
  {
    if keys != [] {
      if m > 0 {
        SweepVisits(keys[1..], filter, n + 1, m - 1);
      }
    }
  }

  lemma SweepNext<K(!new)>(keys: seq<K>, filter: (K, nat) -> Reaction<K>, n: nat)
    requires keys != []
    ensures Sweep(keys, filter, n).keys ==
      (if keys[0] in filter(keys[0], n).deletes then [] else [keys[0]])
      + if filter(keys[0], n).error != 0 then keys[1..] else Sweep(keys[1..], filter, n + 1).keys
  {
  }

  lemma {:induction false} SweepKeeps<K(!new)>(keys: seq<K>, filter: (K, nat) -> Reaction<K>, n: nat, m: nat, i: nat)
    requires Distinct(keys) && i < |keys| && FailsAt(keys, filter, n, m)
    ensures keys[i] in Sweep(keys, filter, n).keys
      <==> i >= (if m < |keys| then m + 1 else m) || keys[i] !in filter(keys[i], n + i).deletes
  {
    hide Sweep;
    SweepNext(keys, filter, n);
    if m > 0 {
      SweepVisits(keys[1..], filter, n + 1, m - 1);
    }
    if i == 0 {
      assert keys[0] !in keys[1..];
    } else if m > 0 {
      SweepKeeps(keys[1..], filter, n + 1, m - 1, i - 1);
      assert keys[1..][i - 1] == keys[i];
    } else {
      assert keys[1..][i - 1] == keys[i];
    }
  }

  // ---- filters that delete other keys ----

  /** Everything before the current key, or everything at the end of the pass, has been seen. */
  ghost predicate Covered<K(!new)>(keys: seq<K>, cur: Result<K>, seen: set<K>) {
    match cur
    case Err(code) => code == ENOENT && forall k :: k in keys ==> k in seen
    case Ok(k) => Find(keys, k) < |keys| ==> forall m :: m in keys[..Find(keys, k)] ==> m in seen
  }

  lemma CoveredStep<K(!new)>(keys: seq<K>, k: K, ks: set<K>, seen: set<K>)
    requires Distinct(keys) && Covered(keys, Ok(k), seen)
    ensures Covered(Without(keys, ks), Next(keys, k), seen + {k})
  {
    var i, next := Find(keys, k), Next(keys, k);
    if next.Ok? {
      CoveredBefore(keys, if i == |keys| then 0 else i + 1, ks, seen + {k}) by {
        assert i < |keys| ==> keys[..i + 1] == keys[..i] + [k];
      }
    } else if i < |keys| {
      assert keys == keys[..i] + [k];
    }
  }

  lemma CoveredBefore<K(!new)>(keys: seq<K>, at: nat, ks: set<K>, seen: set<K>)
    requires Distinct(keys) && at < |keys| && forall m :: m in keys[..at] ==> m in seen
    ensures Covered(Without(keys, ks), Ok(keys[at]), seen)
  {
    if keys[at] !in ks {
      WithoutBefore(keys, ks, at);
    } else {
      assert Find(Without(keys, ks), keys[at]) == |Without(keys, ks)|;
    }
  }

  /** Whatever a filter deletes, no key that stays is missed. */
  lemma {:induction false} NoKeyMissed<K(!new)>(
    keys: seq<K>, cur: Result<K>, filter: (K, nat) -> Reaction<K>, n: nat, seen: set<K>)
    requires Distinct(keys) && Covered(keys, cur, seen)
    ensures var v := Visits(keys, cur, filter, n);
      v.error == 0 ==> forall k :: k in v.keys ==> k in seen || k in v.visited
    decreases |keys|, PassLeft(keys, cur)
  {
    if cur.Ok? {
      hide Visits, Without, Next, Find;
      var k := cur.value;
      VisitsStep(keys, k, filter, n);
      if filter(k, n).error == 0 {
        CoveredStep(keys, k, filter(k, n).deletes, seen);
        var keys' := Without(keys, filter(k, n).deletes);
        WithoutShrinks(keys, filter(k, n).deletes);
        NoKeyMissed(keys', Next(keys, k), filter, n + 1, seen + {k});
      }
    }
  }

  lemma WithoutMembers<K(!new)>(keys: seq<K>, ks: set<K>)
    ensures forall k :: k in Without(keys, ks) <==> k in keys && k !in ks
  {
  }

  lemma WithoutShrinks<K(!new)>(keys: seq<K>, ks: set<K>)
    ensures Without(keys, ks) == keys || |Without(keys, ks)| < |keys|
  {
  }

  /** The filter never deletes the key already fetched as successor. */
  ghost predicate SparesSuccessor<K(!new)>(keys: seq<K>, cur: Result<K>, filter: (K, nat) -> Reaction<K>, n: nat)
    requires Distinct(keys)
    decreases |keys|, PassLeft(keys, cur)
  {
    cur.Ok? && filter(cur.value, n).error == 0 ==>
      var ks := filter(cur.value, n).deletes;
      var next := Next(keys, cur.value);
      VisitsStep(keys, cur.value, filter, n);
      && (next.Ok? ==> next.value !in ks)
      && SparesSuccessor(Without(keys, ks), next, filter, n + 1)
  }

  /** Then no key is visited twice. */
  lemma {:induction false} NoKeyTwice<K(!new)>(keys: seq<K>, i: nat, filter: (K, nat) -> Reaction<K>, n: nat)
    requires Distinct(keys) && i < |keys|
    requires SparesSuccessor(keys, Ok(keys[i]), filter, n)
    ensures var v := Visits(keys, Ok(keys[i]), filter, n).visited;
      Distinct(v) && forall k :: k in v ==> k in keys[i..]
    decreases |keys|, |keys| - i
  {
    hide Visits, Without, Next, Find;
    var k, ks := keys[i], filter(keys[i], n).deletes;
    NextAt(keys, i);
    VisitsStep(keys, k, filter, n);
    if filter(k, n).error == 0 {
      if i + 1 == |keys| {
        VisitsEnd(Without(keys, ks), ENOENT, filter, n + 1);
      } else {
        TailWithout(keys, ks, i + 1);
        BeforeWithout(keys, ks, i);
        NoKeyTwice(Without(keys, ks), |Without(keys[..i + 1], ks)|, filter, n + 1);
        assert k !in keys[i + 1..];
      }
    }
  }

  lemma NextAt<K(!new)>(keys: seq<K>, i: nat)
    requires Distinct(keys) && i < |keys|
    ensures Next(keys, keys[i]) == if i + 1 < |keys| then Ok(keys[i + 1]) else Err(ENOENT)
  {
    FindAt(keys, i);
  }

  lemma TailWithout<K(!new)>(keys: seq<K>, ks: set<K>, i: nat)
    requires Distinct(keys) && i < |keys| && keys[i] !in ks
    ensures var r, n := Without(keys, ks), |Without(keys[..i], ks)|;
      n < |r| && r[n] == keys[i] && forall k :: k in r[n..] ==> k in keys[i..]
  {
    hide Without, Find;
    WithoutBefore(keys, ks, i);
    WithoutAppend(keys[..i], keys[i..], ks);
    assert keys == keys[..i] + keys[i..];
    WithoutMembers(keys[i..], ks);
    var r, n := Without(keys, ks), |Without(keys[..i], ks)|;
    assert r[n..] == Without(keys[i..], ks);
  }

  /** A pass moves on: fewer keys, or more of them behind it. */
  lemma BeforeWithout<K(!new)>(keys: seq<K>, ks: set<K>, i: nat)
    requires Distinct(keys) && i < |keys|
    ensures |Without(keys, ks)| < |keys|
      || (Without(keys, ks) == keys && |Without(keys[..i + 1], ks)| == i + 1)
  {
    if Without(keys, ks) == keys {
      assert forall k :: k in keys[..i + 1] ==> k in keys;
      WithoutNone(keys[..i + 1], ks);
    }
  }

  // ---- when a key is visited twice ----

  /** Some call returns 0 and deletes the key already fetched as its successor, while a key that was
      seen is still in the map, and the call on that successor returns 0 too. */
  ghost predicate StartsOver<K(!new)>(
    keys: seq<K>, cur: Result<K>, filter: (K, nat) -> Reaction<K>, n: nat, seen: set<K>)
    requires Distinct(keys)
    decreases |keys|, PassLeft(keys, cur)
  {
    cur.Ok? && filter(cur.value, n).error == 0 &&
    var ks, next := filter(cur.value, n).deletes, Next(keys, cur.value);
    VisitsStep(keys, cur.value, filter, n);
    || (&& next.Ok? && next.value in ks && filter(next.value, n + 1).error == 0
        && SeenRemains(Without(keys, ks), seen + {cur.value}))
    || StartsOver(Without(keys, ks), next, filter, n + 1, seen + {cur.value})
  }

  predicate SeenRemains<K(==, !new)>(keys: seq<K>, seen: set<K>) { exists m :: m in keys && m in seen }

  /** None twice, and none of the seen ones. */
  ghost predicate Unseen<K(!new)>(visited: seq<K>, seen: set<K>) {
    Distinct(visited) && forall k :: k in visited ==> k !in seen
  }

  lemma UnseenStep<K(!new)>(k: K, rest: seq<K>, seen: set<K>)
    ensures Unseen([k] + rest, seen) <==> k !in seen && Unseen(rest, seen + {k})
  {
    var v := [k] + rest;
    assert v[0] == k && v[1..] == rest;
    if Unseen(v, seen) {
      forall m | m in rest ensures m in v && m != k {
      }
      forall a, b | 0 <= a < b < |rest| ensures rest[a] != rest[b] {
        assert v[a + 1] == rest[a] && v[b + 1] == rest[b];
      }
    }
  }

  /** The current key is new, and the seen keys that are still in the map are those before it, or
      none if it is gone itself. */
  ghost predicate OnTrack<K(!new)>(keys: seq<K>, cur: Result<K>, seen: set<K>) {
    cur.Ok? ==>
      && cur.value !in seen
      && var i := Find(keys, cur.value);
      forall m :: m in keys ==> (m in seen <==> i < |keys| && m in keys[..i])
  }

  /** Where the successor is in the map. */
  function After<K(==, !new)>(keys: seq<K>, k: K): (j: nat)
    ensures j <= |keys|
    ensures Next(keys, k) == if j < |keys| then Ok(keys[j]) else Err(ENOENT)
  {
    var i := Find(keys, k);
    if i == |keys| then 0 else i + 1
  }

  lemma SeenBeforeNext<K(!new)>(keys: seq<K>, k: K, seen: set<K>)
    requires Distinct(keys) && OnTrack(keys, Ok(k), seen)
    ensures forall m :: m in keys ==> (m in seen + {k} <==> m in keys[..After(keys, k)])
  {
    var i := Find(keys, k);
    if i < |keys| {
      assert keys[..i + 1] == keys[..i] + [keys[i]];
    }
  }

  /** A successor that stays, or with no seen key left, keeps the iteration on its track. */
  lemma StaysOnTrack<K(!new)>(keys: seq<K>, k: K, ks: set<K>, seen: set<K>)
    requires Distinct(keys) && OnTrack(keys, Ok(k), seen) && Next(keys, k).Ok?
    requires Next(keys, k).value !in ks || !SeenRemains(Without(keys, ks), seen + {k})
    ensures OnTrack(Without(keys, ks), Next(keys, k), seen + {k})
  {
    hide Next, Without, OnTrack;
    var j := After(keys, k);
    NextIsNew(keys, k, seen);
    SeenBeforeNext(keys, k, seen);
    if keys[j] !in ks {
      WithoutBefore(keys, ks, j);
      var r := Without(keys, ks);
      WithoutMembers(keys[..j], ks);
      assert forall m :: m in r ==> (m in seen + {k} <==> m in r[..Find(r, keys[j])]);
      TrackAt(r, keys[j], seen + {k});
    } else {
      TrackGone(Without(keys, ks), keys[j], seen + {k});
    }
  }

  lemma TrackAt<K(!new)>(keys: seq<K>, k: K, seen: set<K>)
    requires k !in seen && Find(keys, k) < |keys|
    requires forall m :: m in keys ==> (m in seen <==> m in keys[..Find(keys, k)])
    ensures OnTrack(keys, Ok(k), seen)
  {
  }

  lemma TrackGone<K(!new)>(keys: seq<K>, k: K, seen: set<K>)
    requires k !in seen && k !in keys && !SeenRemains(keys, seen)
    ensures OnTrack(keys, Ok(k), seen)
  {
    assert Find(keys, k) == |keys|;
  }

  lemma NextIsNew<K(!new)>(keys: seq<K>, k: K, seen: set<K>)
    requires Distinct(keys) && OnTrack(keys, Ok(k), seen) && Next(keys, k).Ok?
    ensures Next(keys, k).value in keys && Next(keys, k).value !in seen + {k}
  {
    SeenBeforeNext(keys, k, seen);
    var j := After(keys, k);
    assert keys[j] !in keys[..j];
  }

  /** A deleted successor with a seen key left makes the first key come again. */
  lemma FirstIsSeen<K(!new)>(keys: seq<K>, k: K, ks: set<K>, seen: set<K>)
    requires Distinct(keys) && OnTrack(keys, Ok(k), seen) && SeenRemains(Without(keys, ks), seen + {k})
    ensures Without(keys, ks) != [] && Without(keys, ks)[0] in seen + {k}
  {
    hide Next, OnTrack, Without;
    SeenBeforeNext(keys, k, seen);
    var j := After(keys, k);
    assert keys == keys[..j] + keys[j..];
    WithoutAppend(keys[..j], keys[j..], ks);
    WithoutMembers(keys, ks);
    WithoutMembers(keys[..j], ks);
    var m :| m in Without(keys, ks) && m in seen + {k};
    assert m in Without(keys[..j], ks);
    var first := Without(keys[..j], ks)[0];
    assert first in Without(keys[..j], ks) && first == Without(keys, ks)[0];
  }

  lemma {:induction false} RepeatsFrom<K(!new)>(
    keys: seq<K>, cur: Result<K>, filter: (K, nat) -> Reaction<K>, n: nat, seen: set<K>)
    requires Distinct(keys) && OnTrack(keys, cur, seen)
    ensures Unseen(Visits(keys, cur, filter, n).visited, seen) <==> !StartsOver(keys, cur, filter, n, seen)
    decreases |keys|, PassLeft(keys, cur)
  {
    if cur.Ok? {
      hide Visits, Without, Next, Find, OnTrack, Unseen, StartsOver;
      var k, ks, next := cur.value, filter(cur.value, n).deletes, Next(keys, cur.value);
      var keys' := Without(keys, ks);
      VisitsStep(keys, k, filter, n);
      StartsOverStep(keys, k, filter, n, seen);
      NewHere(keys, k, seen);
      WithoutShrinks(keys, ks);
      if filter(k, n).error != 0 {
        NothingUnseen(seen + {k});
        UnseenStep(k, [], seen);
        assert [k] + [] == [k];
      } else {
        UnseenStep(k, Visits(keys', next, filter, n + 1).visited, seen);
        if next.Ok? && next.value in ks && SeenRemains(keys', seen + {k}) {
          GoneSuccessor(keys, k, filter, n, seen);
        } else {
          if next.Ok? {
            StaysOnTrack(keys, k, ks, seen);
          } else {
            EndOnTrack(keys', next, seen + {k});
          }
          RepeatsFrom(keys', next, filter, n + 1, seen + {k});
        }
      }
    } else {
      NothingUnseen(seen);
    }
  }

  /** The visit of a successor that is gone, with a seen key left: it ends the iteration or makes a
      seen key come again. */
  lemma GoneSuccessor<K(!new)>(keys: seq<K>, k: K, filter: (K, nat) -> Reaction<K>, n: nat, seen: set<K>)
    requires Distinct(keys) && OnTrack(keys, Ok(k), seen) && Next(keys, k).Ok? && filter(k, n).error == 0
    requires Next(keys, k).value in filter(k, n).deletes
    requires Distinct(Without(keys, filter(k, n).deletes))
    requires SeenRemains(Without(keys, filter(k, n).deletes), seen + {k})
    ensures var keys', next := Without(keys, filter(k, n).deletes), Next(keys, k);
      && (Unseen(Visits(keys', next, filter, n + 1).visited, seen + {k}) <==> filter(next.value, n + 1).error != 0)
      && (filter(next.value, n + 1).error != 0 ==> !StartsOver(keys', next, filter, n + 1, seen + {k}))
  {
    hide Visits, Without, Find, OnTrack, Unseen;
    var ks, next := filter(k, n).deletes, Next(keys, k).value;
    var keys', seen' := Without(keys, ks), seen + {k};
    NextIsNew(keys, k, seen);
    FirstIsSeen(keys, k, ks, seen);
    WithoutMembers(keys, ks);
    VisitsStep(keys', next, filter, n + 1);
    NothingUnseen(seen' + {next});
    UnseenStep(next, [], seen');
    assert [next] + [] == [next];
    if filter(next, n + 1).error == 0 {
      var after := Without(keys', filter(next, n + 1).deletes);
      assert Next(keys', next) == Ok(keys'[0]) by {
        assert next !in keys';
        NextOfGone(keys', next);
      }
      SeenAgain(after, keys'[0], filter, n + 2, seen' + {next});
      UnseenStep(next, Visits(after, Ok(keys'[0]), filter, n + 2).visited, seen');
    }
  }

  lemma NextOfGone<K(!new)>(keys: seq<K>, k: K)
    requires k !in keys
    ensures Next(keys, k) == First(keys)
  {
    assert Find(keys, k) == |keys|;
  }

  lemma SeenAgain<K(!new)>(keys: seq<K>, k: K, filter: (K, nat) -> Reaction<K>, n: nat, seen: set<K>)
    requires Distinct(keys) && k in seen
    ensures !Unseen(Visits(keys, Ok(k), filter, n).visited, seen)
  {
    hide Visits;
    VisitsStep(keys, k, filter, n);
    assert Visits(keys, Ok(k), filter, n).visited[0] == k;
  }

  lemma NothingUnseen<K(!new)>(seen: set<K>)
    ensures Unseen([], seen)
  {
  }

  lemma NewHere<K(!new)>(keys: seq<K>, k: K, seen: set<K>)
    requires OnTrack(keys, Ok(k), seen)
    ensures k !in seen
  {
  }

  lemma EndOnTrack<K(!new)>(keys: seq<K>, cur: Result<K>, seen: set<K>)
    requires cur.Err?
    ensures OnTrack(keys, cur, seen)
  {
  }

  lemma StartsOverStep<K(!new)>(keys: seq<K>, k: K, filter: (K, nat) -> Reaction<K>, n: nat, seen: set<K>)
    requires Distinct(keys)
    ensures Distinct(Without(keys, filter(k, n).deletes))
    ensures StartsOver(keys, Ok(k), filter, n, seen) <==>
      && filter(k, n).error == 0
      && var ks, next := filter(k, n).deletes, Next(keys, k);
      || (&& next.Ok? && next.value in ks && filter(next.value, n + 1).error == 0
          && SeenRemains(Without(keys, ks), seen + {k}))
      || StartsOver(Without(keys, ks), next, filter, n + 1, seen + {k})
  {
    hide Without, Next, Find;
    VisitsStep(keys, k, filter, n);
  }

  /** Whatever the filter deletes, a key is visited twice exactly if the iteration starts over. */
  lemma RepeatsExactly<K(!new)>(keys: seq<K>, filter: (K, nat) -> Reaction<K>)
    requires Distinct(keys)
    ensures !Distinct(Visits(keys, First(keys), filter, 0).visited) <==> StartsOver(keys, First(keys), filter, 0, {})
  {
    assert OnTrack(keys, First(keys), {});
    RepeatsFrom(keys, First(keys), filter, 0, {});
  }

  /** Deleting the successor makes the pass start over: key 1 is visited twice, and the deleted key 2
      is visited after its deletion. */
  lemma SuccessorDeleted(filter: (int, nat) -> Reaction<int>)
    requires forall k, n :: filter(k, n) == Reaction(if n == 0 then {2} else {}, 0)
    ensures Visits([1, 2, 3], First([1, 2, 3]), filter, 0) == Iteration([1, 2, 1, 3], [1, 3], 0)
    ensures StartsOver([1, 2, 3], First([1, 2, 3]), filter, 0, {})
  {
    hide Visits, StartsOver, Without, Next, Find;
    RestartedPass(filter);
    WithoutTwo();
    VisitsStep([1, 2, 3], 1, filter, 0);
    assert [1] + [2, 1, 3] == [1, 2, 1, 3];
    RepeatsExactly([1, 2, 3], filter);
    var v := Visits([1, 2, 3], First([1, 2, 3]), filter, 0).visited;
    assert v[0] == v[2];
  }

  lemma WithoutTwo()
    ensures Without([1, 2, 3], {2}) == [1, 3] && Next([1, 2, 3], 1) == Ok(2)
  {
  }

  lemma RestartedPass(filter: (int, nat) -> Reaction<int>)
    requires forall k, n :: filter(k, n) == Reaction(if n == 0 then {2} else {}, 0)
    ensures Visits([1, 3], Ok(2), filter, 1) == Iteration([2, 1, 3], [1, 3], 0)
  {
    assert Visits([1, 3], Err(ENOENT), filter, 4) == Iteration([], [1, 3], 0);
    hide Visits;
    WithoutNone([1, 3], {});
    VisitsStep([1, 3], 3, filter, 3);
    VisitsStep([1, 3], 1, filter, 2);
    VisitsStep([1, 3], 2, filter, 1);
    assert [3] + [] == [3];
    assert [1] + [3] == [1, 3];
    assert [2] + [1, 3] == [2, 1, 3];
    assert Next([1, 3], 3) == Err(ENOENT);
    assert Next([1, 3], 1) == Ok(3);
    assert Next([1, 3], 2) == Ok(1);
  }

  // ---- iteration with values ----

  datatype ValueIteration<K, V> = ValueIteration(visited: seq<(K, V)>, keys: seq<K>, error: int)

  /** The loop of BpfMap::iterateWithValue: a key deleted since it was fetched ends it. */
  function ValueVisits<K(==, !new), V>(
    keys: seq<K>, values: map<K, V>, cur: Result<K>, filter: (K, V, nat) -> Reaction<K>, n: nat): ValueIteration<K, V>
    requires Distinct(keys)
    decreases |keys|, PassLeft(keys, cur)
  {
    match cur
    case Err(code) => ValueIteration([], keys, if code == ENOENT then 0 else code)
    case Ok(k) =>
      if k !in keys || k !in values then ValueIteration([], keys, ENOENT)
      else
        var reaction := filter(k, values[k], n);
        WithoutDistinct(keys, reaction.deletes);
        NextIsCloser(keys, k);
        if reaction.error != 0 then
          ValueIteration([(k, values[k])], Without(keys, reaction.deletes), reaction.error)
        else
          var keys', left := Without(keys, reaction.deletes), values - reaction.deletes;
          var rest := ValueVisits(keys', left, Next(keys, k), filter, n + 1);
          ValueIteration([(k, values[k])] + rest.visited, rest.keys, rest.error)
  }

  /** One pass over the initial entries. */
  function ValueSweep<K(==, !new), V>(
    keys: seq<K>, values: map<K, V>, filter: (K, V, nat) -> Reaction<K>, n: nat): ValueIteration<K, V>
    requires forall k :: k in keys ==> k in values
  {
    if keys == [] then ValueIteration([], [], 0)
    else
      var k := keys[0];
      var reaction := filter(k, values[k], n);
      var kept := if k in reaction.deletes then [] else [k];
      if reaction.error != 0 then ValueIteration([(k, values[k])], kept + keys[1..], reaction.error)
      else
        var rest := ValueSweep(keys[1..], values, filter, n + 1);
        ValueIteration([(k, values[k])] + rest.visited, kept + rest.keys, rest.error)
  }

  ghost predicate DeletesOwnValue<K(!new), V(!new)>(filter: (K, V, nat) -> Reaction<K>) {
    forall k, v, n :: filter(k, v, n).deletes <= {k}
  }

  lemma ValueVisitsStep<K(!new), V>(
    keys: seq<K>, values: map<K, V>, k: K, filter: (K, V, nat) -> Reaction<K>, n: nat)
    requires Distinct(keys) && k in keys && k in values
    ensures Distinct(Without(keys, filter(k, values[k], n).deletes))
    ensures ValueVisits(keys, values, Ok(k), filter, n) ==
      var ks := filter(k, values[k], n).deletes;
      if filter(k, values[k], n).error != 0 then
        ValueIteration([(k, values[k])], Without(keys, ks), filter(k, values[k], n).error)
      else
        var rest := ValueVisits(Without(keys, ks), values - ks, Next(keys, k), filter, n + 1);
        ValueIteration([(k, values[k])] + rest.visited, rest.keys, rest.error)
  {
    WithoutDistinct(keys, filter(k, values[k], n).deletes);
  }

  lemma ValueSweepStep<K(!new), V>(keys: seq<K>, values: map<K, V>, filter: (K, V, nat) -> Reaction<K>, n: nat)
    requires keys != [] && forall k :: k in keys ==> k in values
    ensures ValueSweep(keys, values, filter, n) ==
      var k := keys[0];
      var r := filter(k, values[k], n);
      var kept := if k in r.deletes then [] else [k];
      if r.error != 0 then ValueIteration([(k, values[k])], kept + keys[1..], r.error)
      else
        var rest := ValueSweep(keys[1..], values, filter, n + 1);
        ValueIteration([(k, values[k])] + rest.visited, kept + rest.keys, rest.error)
  {
  }

  /** What is still to come has its initial values. */
  ghost predicate SameValues<K(!new), V>(rest: seq<K>, values: map<K, V>, left: map<K, V>) {
    forall k :: k in rest ==> k in values && k in left && left[k] == values[k]
  }

  lemma SameValuesStep<K(!new), V>(kept: seq<K>, rest: seq<K>, values: map<K, V>, left: map<K, V>, ks: set<K>)
    requires rest != [] && Distinct(kept + rest) && SameValues(rest, values, left) && ks <= {rest[0]}
    ensures SameValues(rest[1..], values, left - ks)
  {
    DistinctAppend(kept, rest, 0);
  }

  lemma {:induction false} ValueVisitsIsSweep<K(!new), V(!new)>(
    kept: seq<K>, rest: seq<K>, values: map<K, V>, left: map<K, V>, filter: (K, V, nat) -> Reaction<K>, n: nat)
    requires Distinct(kept + rest) && DeletesOwnValue(filter)
    requires SameValues(rest, values, left)
    ensures var v, w := ValueVisits(kept + rest, left, First(rest), filter, n), ValueSweep(rest, values, filter, n);
      v.visited == w.visited && v.keys == kept + w.keys && v.error == w.error
    decreases |rest|
  {
    if rest != [] {
      hide ValueVisits, ValueSweep, Without, Next, Find, Distinct;
      var k := rest[0];
      var ks := filter(k, values[k], n).deletes;
      var own := if k in ks then [] else [k];
      assert ks <= {k};
      SameValuesStep(kept, rest, values, left, ks);
      ValueVisitsStep(kept + rest, left, k, filter, n);
      ValueSweepStep(rest, values, filter, n);
      WithoutCurrent(kept, rest, ks);
      NextInRest(kept, rest);
      AppendAssoc(kept, own, rest[1..]);
      if filter(k, values[k], n).error == 0 {
        ValueVisitsIsSweep(kept + own, rest[1..], values, left - ks, filter, n + 1);
        AppendAssoc(kept, own, ValueSweep(rest[1..], values, filter, n + 1).keys);
      }
    } else {
      assert kept + [] == kept;
    }
  }

  /** With a filter that deletes at most its own key, each initial entry is visited once, in order
      and with its initial value, up to the first error. */
  lemma IterateWithValueIsSweep<K(!new), V(!new)>(keys: seq<K>, values: map<K, V>, filter: (K, V, nat) -> Reaction<K>)
    requires Distinct(keys) && DeletesOwnValue(filter) && forall k :: k in keys <==> k in values
    ensures ValueVisits(keys, values, First(keys), filter, 0) == ValueSweep(keys, values, filter, 0)
  {
    hide ValueVisits, ValueSweep, DeletesOwnValue;
    assert [] + keys == keys;
    ValueVisitsIsSweep([], keys, values, values, filter, 0);
    assert [] + ValueSweep(keys, values, filter, 0).keys == ValueSweep(keys, values, filter, 0).keys;
  }

  lemma TailDistinct<K(!new)>(keys: seq<K>)
    requires Distinct(keys) && keys != []
    ensures Distinct(keys[1..]) && keys[0] !in keys[1..]
  {
  }

  predicate FailsAtEntry<K(!new), V>(
    keys: seq<K>, values: map<K, V>, filter: (K, V, nat) -> Reaction<K>, n: nat, m: nat)
    requires forall k :: k in keys ==> k in values
  {
    && m <= |keys| && (forall i :: 0 <= i < m ==> filter(keys[i], values[keys[i]], n + i).error == 0)
    && (m < |keys| ==> filter(keys[m], values[keys[m]], n + m).error != 0)
  }

  /** That pass sees the initial entries in order up to the first call that reports an error, and
      returns that error; gone are exactly the keys seen that their own call deletes. */
  lemma ValueSweepExactly<K(!new), V(!new)>(
    keys: seq<K>, values: map<K, V>, filter: (K, V, nat) -> Reaction<K>, n: nat, m: nat)
    requires Distinct(keys) && (forall k :: k in keys ==> k in values) && FailsAtEntry(keys, values, filter, n, m)
    ensures var w, seen := ValueSweep(keys, values, filter, n), if m < |keys| then m + 1 else m;
      && w.error == (if m < |keys| then filter(keys[m], values[keys[m]], n + m).error else 0)
      && |w.visited| == seen && (forall i :: 0 <= i < seen ==> w.visited[i] == (keys[i], values[keys[i]]))
      && (forall i :: 0 <= i < |keys| ==>
            (keys[i] in w.keys <==> i >= seen || keys[i] !in filter(keys[i], values[keys[i]], n + i).deletes))
      && (forall k :: k in w.keys ==> k in keys)
  {
    hide ValueSweep, FailsAtEntry, Distinct;
    ValueSweepVisits(keys, values, filter, n, m);
    forall i | 0 <= i < |keys|
      ensures keys[i] in ValueSweep(keys, values, filter, n).keys
        <==> i >= (if m < |keys| then m + 1 else m) || keys[i] !in filter(keys[i], values[keys[i]], n + i).deletes
    {
      ValueSweepKeeps(keys, values, filter, n, m, i);
    }
  }

  lemma {:induction false} ValueSweepVisits<K(!new), V(!new)>(
    keys: seq<K>, values: map<K, V>, filter: (K, V, nat) -> Reaction<K>, n: nat, m: nat)
    requires (forall k :: k in keys ==> k in values) && FailsAtEntry(keys, values, filter, n, m)
    ensures var w, seen := ValueSweep(keys, values, filter, n), if m < |keys| then m + 1 else m;
      && w.error == (if m < |keys| then filter(keys[m], values[keys[m]], n + m).error else 0)
      && |w.visited| == seen && (forall i :: 0 <= i < seen ==> w.visited[i] == (keys[i], values[keys[i]]))
      && (forall k :: k in w.keys ==> k in keys)
  {
    if keys != [] {
      if m > 0 {
        ValueSweepVisits(keys[1..], values, filter, n + 1, m - 1);
      }
    }
  }

  lemma ValueSweepNext<K(!new), V>(keys: seq<K>, values: map<K, V>, filter: (K, V, nat) -> Reaction<K>, n: nat)
    requires keys != [] && forall k :: k in keys ==> k in values
    ensures var r := filter(keys[0], values[keys[0]], n);
      ValueSweep(keys, values, filter, n).keys ==
        (if keys[0] in r.deletes then [] else [keys[0]])
        + if r.error != 0 then keys[1..] else ValueSweep(keys[1..], values, filter, n + 1).keys
  {
  }

  lemma {:induction false} ValueSweepKeeps<K(!new), V(!new)>(
    keys: seq<K>, values: map<K, V>, filter: (K, V, nat) -> Reaction<K>, n: nat, m: nat, i: nat)
    requires Distinct(keys) && i < |keys|
    requires (forall k :: k in keys ==> k in values) && FailsAtEntry(keys, values, filter, n, m)
    ensures keys[i] in ValueSweep(keys, values, filter, n).keys
      <==> i >= (if m < |keys| then m + 1 else m) || keys[i] !in filter(keys[i], values[keys[i]], n + i).deletes
  {
    hide ValueSweep, Distinct, FailsAtEntry;
    TailDistinct(keys);
    FailsAtLater(keys, values, filter, n, m);
    ValueSweepNext(keys, values, filter, n);
    if m > 0 {
      ValueSweepVisits(keys[1..], values, filter, n + 1, m - 1);
      if i > 0 {
        ValueSweepKeeps(keys[1..], values, filter, n + 1, m - 1, i - 1);
      }
    }
    assert i > 0 ==> keys[1..][i - 1] == keys[i];
  }

  lemma FailsAtLater<K(!new), V>(keys: seq<K>, values: map<K, V>, filter: (K, V, nat) -> Reaction<K>, n: nat, m: nat)
    requires keys != [] && (forall k :: k in keys ==> k in values) && FailsAtEntry(keys, values, filter, n, m)
    ensures m == 0 ==> filter(keys[0], values[keys[0]], n).error != 0
    ensures m > 0 ==>
      filter(keys[0], values[keys[0]], n).error == 0 && FailsAtEntry(keys[1..], values, filter, n + 1, m - 1)
  {
  }

  ghost predicate DistinctKeys<K, V>(visited: seq<(K, V)>) {
    forall i, j :: 0 <= i < j < |visited| ==> visited[i].0 != visited[j].0
  }

  /** Unlike the form without values, this one visits no key twice whatever the filter deletes. */
  lemma {:induction false} ValuesNeverTwice<K(!new), V>(
    keys: seq<K>, values: map<K, V>, i: nat, filter: (K, V, nat) -> Reaction<K>, n: nat)
    requires Distinct(keys) && i < |keys| && forall k :: k in keys <==> k in values
    ensures var v := ValueVisits(keys, values, Ok(keys[i]), filter, n).visited;
      DistinctKeys(v) && forall e :: e in v ==> e.0 in keys[i..]
    decreases |keys|, |keys| - i
  {
    hide ValueVisits, Without, Next, Find;
    var k, ks := keys[i], filter(keys[i], values[keys[i]], n).deletes;
    NextAt(keys, i);
    ValueVisitsStep(keys, values, k, filter, n);
    if filter(k, values[k], n).error == 0 {
      WithoutMembers(keys, ks);
      if i + 1 == |keys| {
        ValueVisitsEnd(Without(keys, ks), values - ks, ENOENT, filter, n + 1);
      } else if keys[i + 1] in ks {
        ValueVisitsAbsent(Without(keys, ks), values - ks, keys[i + 1], filter, n + 1);
      } else {
        TailWithout(keys, ks, i + 1);
        BeforeWithout(keys, ks, i);
        ValuesNeverTwice(Without(keys, ks), values - ks, |Without(keys[..i + 1], ks)|, filter, n + 1);
        assert k !in keys[i + 1..];
      }
    }
  }

  // ---- when the form with values ends early ----

  /** Every call returns 0 and spares the key already fetched as its successor. */
  ghost predicate EachSparesNext<K(!new), V>(
    keys: seq<K>, values: map<K, V>, cur: Result<K>, filter: (K, V, nat) -> Reaction<K>, n: nat)
    requires Distinct(keys)
    decreases |keys|, PassLeft(keys, cur)
  {
    cur.Ok? && cur.value in keys && cur.value in values ==>
    var r, next := filter(cur.value, values[cur.value], n), Next(keys, cur.value);
    ValueVisitsStep(keys, values, cur.value, filter, n);
    NextIsCloser(keys, cur.value);
    && r.error == 0
    && (next.Ok? ==> next.value !in r.deletes)
    && EachSparesNext(Without(keys, r.deletes), values - r.deletes, next, filter, n + 1)
  }

  /** The keys of the entries visited. */
  function KeysOf<K(!new), V>(visited: seq<(K, V)>): (ks: set<K>)
    ensures forall k :: k in ks <==> exists i :: 0 <= i < |visited| && visited[i].0 == k
  {
    set i | 0 <= i < |visited| :: visited[i].0
  }

  lemma KeysOfFirst<K(!new), V>(e: (K, V), rest: seq<(K, V)>)
    ensures KeysOf([e] + rest) == {e.0} + KeysOf(rest)
  {
    var v := [e] + rest;
    assert v[0] == e && v[1..] == rest;
    forall k | k in KeysOf(rest) ensures k in KeysOf(v) {
      var i :| 0 <= i < |rest| && rest[i].0 == k;
      assert v[i + 1].0 == k;
    }
  }

  lemma KeysOfLast<K(!new), V>(visited: seq<(K, V)>, e: (K, V))
    ensures KeysOf(visited + [e]) == KeysOf(visited) + {e.0}
  {
    var v := visited + [e];
    assert v[|visited|] == e && v[..|visited|] == visited;
    forall k | k in KeysOf(visited) ensures k in KeysOf(v) {
      var i :| 0 <= i < |visited| && visited[i].0 == k;
      assert v[i].0 == k;
    }
  }

  /** They are entries of the map. */
  ghost predicate EntriesOf<K(!new), V>(visited: seq<(K, V)>, m: map<K, V>) {
    forall i :: 0 <= i < |visited| ==> visited[i].0 in m && visited[i].1 == m[visited[i].0]
  }

  lemma EntriesOfNone<K(!new), V>(m: map<K, V>)
    ensures EntriesOf([], m)
  {
  }

  lemma EntriesOfLast<K(!new), V>(visited: seq<(K, V)>, e: (K, V), m: map<K, V>)
    requires EntriesOf(visited, m) && e.0 in m && e.1 == m[e.0]
    ensures EntriesOf(visited + [e], m)
  {
  }

  lemma EachSparesNextStep<K(!new), V>(
    keys: seq<K>, values: map<K, V>, k: K, filter: (K, V, nat) -> Reaction<K>, n: nat)
    requires Distinct(keys) && k in keys && k in values
    ensures var r, next := filter(k, values[k], n), Next(keys, k);
      && Distinct(Without(keys, r.deletes))
      && (EachSparesNext(keys, values, Ok(k), filter, n) <==>
            && r.error == 0
            && (next.Ok? ==> next.value !in r.deletes)
            && EachSparesNext(Without(keys, r.deletes), values - r.deletes, next, filter, n + 1))
  {
    hide Without, Next, Find;
    ValueVisitsStep(keys, values, k, filter, n);
    NextIsCloser(keys, k);
  }

  lemma {:induction false} EndsEarlyFrom<K(!new), V>(
    keys: seq<K>, values: map<K, V>, i: nat, filter: (K, V, nat) -> Reaction<K>, n: nat)
    requires Distinct(keys) && i < |keys| && forall k :: k in keys <==> k in values
    ensures var v := ValueVisits(keys, values, Ok(keys[i]), filter, n);
      && (v.error == 0 <==> EachSparesNext(keys, values, Ok(keys[i]), filter, n))
      && (v.error == 0 ==> forall k :: k in v.keys ==> k in keys[..i] || k in KeysOf(v.visited))
    decreases |keys|, |keys| - i
  {
    hide ValueVisits, EachSparesNext, Without, Next, Find, KeysOf;
    var k := keys[i];
    var ks := filter(k, values[k], n).deletes;
    var keys', values' := Without(keys, ks), values - ks;
    NextAt(keys, i);
    ValueVisitsStep(keys, values, k, filter, n);
    EachSparesNextStep(keys, values, k, filter, n);
    if filter(k, values[k], n).error == 0 {
      WithoutMembers(keys, ks);
      WithoutMembers(keys[..i + 1], ks);
      assert keys[..i + 1] == keys[..i] + [k];
      var rest := ValueVisits(keys', values', Next(keys, k), filter, n + 1);
      if i + 1 == |keys| {
        ValueVisitsEnd(keys', values', ENOENT, filter, n + 1);
        EndSpares(keys', values', Next(keys, k), filter, n + 1);
        assert keys[..i + 1] == keys;
      } else if keys[i + 1] in ks {
        ValueVisitsAbsent(keys', values', keys[i + 1], filter, n + 1);
      } else {
        WithoutBefore(keys, ks, i + 1);
        BeforeWithout(keys, ks, i);
        EndsEarlyFrom(keys', values', |Without(keys[..i + 1], ks)|, filter, n + 1);
      }
      KeysOfFirst((k, values[k]), rest.visited);
    }
  }

  lemma EndSpares<K(!new), V>(
    keys: seq<K>, values: map<K, V>, cur: Result<K>, filter: (K, V, nat) -> Reaction<K>, n: nat)
    requires Distinct(keys) && cur.Err?
    ensures EachSparesNext(keys, values, cur, filter, n)
  {
  }

  /** iterateWithValue succeeds exactly if every call returns 0 and spares its successor, and then
      every initial key has been visited or deleted. */
  lemma EndsEarlyExactly<K(!new), V>(keys: seq<K>, values: map<K, V>, filter: (K, V, nat) -> Reaction<K>)
    requires Distinct(keys) && forall k :: k in keys <==> k in values
    ensures var v := ValueVisits(keys, values, First(keys), filter, 0);
      && (v.error == 0 <==> EachSparesNext(keys, values, First(keys), filter, 0))
      && (v.error == 0 ==> forall k :: k in keys ==> k !in v.keys || k in KeysOf(v.visited))
  {
    hide ValueVisits, EachSparesNext, Without, Next, Find, KeysOf;
    if keys == [] {
      ValueVisitsEnd(keys, values, ENOENT, filter, 0);
      EndSpares(keys, values, First(keys), filter, 0);
    } else {
      EndsEarlyFrom(keys, values, 0, filter, 0);
    }
  }

  /** Deleting the successor here ends the loop with ENOENT: key 3 stays and is never visited. */
  lemma KeyMissed(filter: (int, int, nat) -> Reaction<int>)
    requires forall k, v, n :: filter(k, v, n) == Reaction(if n == 0 then {2} else {}, 0)
    ensures var keys, values := [1, 2, 3], map[1 := 10, 2 := 20, 3 := 30];
      ValueVisits(keys, values, First(keys), filter, 0) == ValueIteration([(1, 10)], [1, 3], ENOENT)
  {
    hide ValueVisits, Without, Next, Find;
    var keys, values := [1, 2, 3], map[1 := 10, 2 := 20, 3 := 30];
    WithoutTwo();
    ValueVisitsStep(keys, values, 1, filter, 0);
    ValueVisitsAbsent([1, 3], values - {2}, 2, filter, 1);
    assert [(1, 10)] + [] == [(1, 10)];
  }

  // ---- while others delete ----

  /** What others delete before system call i. */
  function At<K>(sched: seq<set<K>>, i: nat): set<K> { if i < |sched| then sched[i] else {} }

  function Drop<K>(sched: seq<set<K>>, n: nat): seq<set<K>> { if n <= |sched| then sched[n..] else [] }

  lemma DropTwice<K>(sched: seq<set<K>>, n: nat, m: nat)
    ensures Drop(Drop(sched, n), m) == Drop(sched, n + m)
    ensures At(Drop(sched, n), m) == At(sched, n + m)
  {
  }

  lemma WithoutFirst<K(!new)>(keys: seq<K>, ks: set<K>)
    ensures Without(keys, ks) ==
      if keys == [] then [] else (if keys[0] in ks then [] else [keys[0]]) + Without(keys[1..], ks)
  {
  }

  lemma {:induction false} WithoutTwice<K(!new)>(keys: seq<K>, a: set<K>, b: set<K>)
    ensures Without(Without(keys, a), b) == Without(keys, a + b)
  {
    hide Without;
    WithoutFirst(keys, a);
    WithoutFirst(keys, a + b);
    if keys != [] {
      WithoutTwice(keys[1..], a, b);
      var rest := Without(keys[1..], a);
      if keys[0] in a {
        assert [] + rest == rest;
      } else {
        assert ([keys[0]] + rest)[1..] == rest;
        WithoutFirst([keys[0]] + rest, b);
      }
    } else {
      WithoutFirst(Without(keys, a), b);
    }
  }

  /** The loop of iterate from the n-th visit on; others delete before each successor is fetched. */
  function VisitsAmid<K(==, !new)>(
    keys: seq<K>, cur: Result<K>, filter: (K, nat) -> Reaction<K>, n: nat, sched: seq<set<K>>): Iteration<K>
    requires Distinct(keys)
    decreases |keys|, PassLeft(keys, cur)
  {
    match cur
    case Err(code) => Iteration([], keys, if code == ENOENT then 0 else code)
    case Ok(k) =>
      var fetched := Without(keys, At(sched, n));
      var keys', next := Without(fetched, filter(k, n).deletes), Next(fetched, k);
      AmidStep(keys, k, At(sched, n), filter(k, n).deletes);
      if filter(k, n).error != 0 then Iteration([k], keys', filter(k, n).error)
      else
        var rest := VisitsAmid(keys', next, filter, n + 1, sched);
        Iteration([k] + rest.visited, rest.keys, rest.error)
  }

  lemma AmidStep<K(!new)>(keys: seq<K>, k: K, gone: set<K>, ks: set<K>)
    requires Distinct(keys)
    ensures var fetched := Without(keys, gone);
      var keys' := Without(fetched, ks);
      && Distinct(fetched) && Distinct(keys')
      && (|keys'| < |keys| || (keys' == keys && PassLeft(keys', Next(fetched, k)) < PassLeft(keys, Ok(k))))
  {
    hide Without, Next, PassLeft, Distinct;
    var fetched := Without(keys, gone);
    WithoutDistinct(keys, gone);
    WithoutDistinct(fetched, ks);
    WithoutShrinks(keys, gone);
    WithoutShrinks(fetched, ks);
    NextIsCloser(fetched, k);
  }

  /** From the first key on. */
  function IterateAmid<K(==, !new)>(keys: seq<K>, filter: (K, nat) -> Reaction<K>, others: seq<set<K>>): Iteration<K>
    requires Distinct(keys)
  {
    var keys' := Without(keys, At(others, 0));
    WithoutDistinct(keys, At(others, 0));
    VisitsAmid(keys', First(keys'), filter, 0, Drop(others, 1))
  }

  /** A filter that deletes what the given one does and, with it, what others delete before the next
      fetch. */
  function Merged<K(==, !new)>(filter: (K, nat) -> Reaction<K>, sched: seq<set<K>>): (K, nat) -> Reaction<K> {
    (k: K, n: nat) => Reaction(filter(k, n).deletes + At(sched, n + 1), filter(k, n).error)
  }

  lemma MergedAt<K(!new)>(filter: (K, nat) -> Reaction<K>, sched: seq<set<K>>, k: K, n: nat)
    ensures Merged(filter, sched)(k, n) == Reaction(filter(k, n).deletes + At(sched, n + 1), filter(k, n).error)
  {
  }

  /** What others delete before a fetch might as well have been deleted by the call before. */
  lemma {:induction false} AmidIsMerged<K(!new)>(
    keys: seq<K>, cur: Result<K>, filter: (K, nat) -> Reaction<K>, n: nat, sched: seq<set<K>>)
    requires Distinct(keys)
    ensures Distinct(Without(keys, At(sched, n)))
    ensures var v := VisitsAmid(keys, cur, filter, n, sched);
      var w := Visits(Without(keys, At(sched, n)), cur, Merged(filter, sched), n);
      v.visited == w.visited && v.error == w.error
    decreases |keys|, PassLeft(keys, cur)
  {
    var fetched := Without(keys, At(sched, n));
    WithoutDistinct(keys, At(sched, n));
    if cur.Ok? {
      hide Visits, VisitsAmid, Without, Next, PassLeft, Distinct, At, Merged;
      var k := cur.value;
      var ks := filter(k, n).deletes;
      MergedAt(filter, sched, k, n);
      VisitsAmidStep(keys, k, filter, n, sched);
      VisitsStep(fetched, k, Merged(filter, sched), n);
      if filter(k, n).error == 0 {
        AmidIsMerged(Without(fetched, ks), Next(fetched, k), filter, n + 1, sched);
        WithoutTwice(fetched, ks, At(sched, n + 1));
      }
    }
  }

  lemma VisitsAmidStep<K(!new)>(keys: seq<K>, k: K, filter: (K, nat) -> Reaction<K>, n: nat, sched: seq<set<K>>)
    requires Distinct(keys)
    ensures var fetched := Without(keys, At(sched, n));
      var keys', next := Without(fetched, filter(k, n).deletes), Next(fetched, k);
      && Distinct(fetched) && Distinct(keys')
      && (|keys'| < |keys| || (keys' == keys && PassLeft(keys', next) < PassLeft(keys, Ok(k))))
      && VisitsAmid(keys, Ok(k), filter, n, sched) ==
        (if filter(k, n).error != 0 then Iteration([k], keys', filter(k, n).error)
        else
          var rest := VisitsAmid(keys', next, filter, n + 1, sched);
          Iteration([k] + rest.visited, rest.keys, rest.error))
  {
    hide Without, Next, PassLeft, Distinct;
    AmidStep(keys, k, At(sched, n), filter(k, n).deletes);
  }

  /** Whatever the filter and others delete, a key is visited twice exactly if the iteration starts
      over for the two taken together. */
  lemma RepeatsAmidExactly<K(!new)>(keys: seq<K>, filter: (K, nat) -> Reaction<K>, others: seq<set<K>>)
    requires Distinct(keys)
    ensures var sched, first := Drop(others, 1), Without(keys, At(others, 0));
      && Distinct(first) && Distinct(Without(first, At(sched, 0)))
      && (!Distinct(IterateAmid(keys, filter, others).visited) <==>
            StartsOver(Without(first, At(sched, 0)), First(first), Merged(filter, sched), 0, {}))
  {
    hide Visits, VisitsAmid, StartsOver;
    var sched, first := Drop(others, 1), Without(keys, At(others, 0));
    WithoutDistinct(keys, At(others, 0));
    WithoutDistinct(first, At(sched, 0));
    AmidIsMerged(first, First(first), filter, 0, sched);
    FirstOnTrack(first, At(sched, 0));
    RepeatsFrom(Without(first, At(sched, 0)), First(first), Merged(filter, sched), 0, {});
  }

  lemma FirstOnTrack<K(!new)>(keys: seq<K>, ks: set<K>)
    requires Distinct(keys)
    ensures OnTrack(Without(keys, ks), First(keys), {})
  {
    if keys != [] && keys[0] !in ks {
      WithoutBefore(keys, ks, 0);
    }
  }

  lemma {:induction false} NobodyElse<K(!new)>(keys: seq<K>, cur: Result<K>, filter: (K, nat) -> Reaction<K>, n: nat)
    requires Distinct(keys)
    ensures VisitsAmid(keys, cur, filter, n, []) == Visits(keys, cur, filter, n)
    decreases |keys|, PassLeft(keys, cur)
  {
    if cur.Ok? {
      hide Visits, VisitsAmid, Without, Next, PassLeft, Distinct;
      var k := cur.value;
      VisitsAmidStep(keys, k, filter, n, []);
      VisitsStep(keys, k, filter, n);
      WithoutNone(keys, {});
      if filter(k, n).error == 0 {
        NobodyElse(Without(keys, filter(k, n).deletes), Next(keys, k), filter, n + 1);
      }
    }
  }

  /** The loop of iterateWithValue; others delete before each successor is fetched and before each
      value is read. */
  function ValueVisitsAmid<K(==, !new), V>(
    keys: seq<K>, values: map<K, V>, cur: Result<K>, filter: (K, V, nat) -> Reaction<K>, n: nat, sched: seq<set<K>>)
    : ValueIteration<K, V>
    requires Distinct(keys)
    decreases |keys|, PassLeft(keys, cur)
  {
    match cur
    case Err(code) => ValueIteration([], keys, if code == ENOENT then 0 else code)
    case Ok(k) =>
      var fetched := Without(keys, At(sched, 2 * n));
      var read, left := Without(fetched, At(sched, 2 * n + 1)), values - At(sched, 2 * n) - At(sched, 2 * n + 1);
      if k !in left then ValueIteration([], read, ENOENT)
      else
        var r := filter(k, left[k], n);
        ValueAmidStep(keys, k, At(sched, 2 * n), At(sched, 2 * n + 1), r.deletes);
        if r.error != 0 then ValueIteration([(k, left[k])], Without(read, r.deletes), r.error)
        else
          var keys', next := Without(read, r.deletes), Next(fetched, k);
          var rest := ValueVisitsAmid(keys', left - r.deletes, next, filter, n + 1, sched);
          ValueIteration([(k, left[k])] + rest.visited, rest.keys, rest.error)
  }

  lemma ValueAmidStep<K(!new)>(keys: seq<K>, k: K, gone: set<K>, late: set<K>, ks: set<K>)
    requires Distinct(keys)
    ensures var fetched := Without(keys, gone);
      var keys' := Without(Without(fetched, late), ks);
      && Distinct(fetched) && Distinct(keys')
      && (|keys'| < |keys| || (keys' == keys && PassLeft(keys', Next(fetched, k)) < PassLeft(keys, Ok(k))))
  {
    hide Without, Next, PassLeft, Distinct;
    WithoutTwice(Without(keys, gone), late, ks);
    AmidStep(keys, k, gone, late + ks);
  }

  function IterateWithValueAmid<K(==, !new), V>(
    keys: seq<K>, values: map<K, V>, filter: (K, V, nat) -> Reaction<K>, others: seq<set<K>>): ValueIteration<K, V>
    requires Distinct(keys)
  {
    var keys' := Without(keys, At(others, 0));
    WithoutDistinct(keys, At(others, 0));
    ValueVisitsAmid(keys', values - At(others, 0), First(keys'), filter, 0, Drop(others, 1))
  }

  /** Every call returns 0, and from its fetch until its value is read no key is deleted, neither by
      others nor by a call. */
  ghost predicate EachStays<K(!new), V>(
    keys: seq<K>, values: map<K, V>, cur: Result<K>, filter: (K, V, nat) -> Reaction<K>, n: nat, sched: seq<set<K>>)
    requires Distinct(keys)
    decreases |keys|, PassLeft(keys, cur)
  {
    cur.Ok? && cur.value in values ==>
    var k, gone, late := cur.value, At(sched, 2 * n), At(sched, 2 * n + 1);
    var r, next := filter(k, values[k], n), Next(Without(keys, gone), k);
    ValueAmidStep(keys, k, gone, late, r.deletes);
    && k !in gone + late && r.error == 0
    && (next.Ok? ==> next.value !in late + r.deletes)
    && var keys' := Without(Without(Without(keys, gone), late), r.deletes);
    EachStays(keys', values - gone - late - r.deletes, next, filter, n + 1, sched)
  }

  lemma ValueVisitsAmidStep<K(!new), V>(
    keys: seq<K>, values: map<K, V>, k: K, filter: (K, V, nat) -> Reaction<K>, n: nat, sched: seq<set<K>>)
    requires Distinct(keys)
    ensures var fetched := Without(keys, At(sched, 2 * n));
      var read, left := Without(fetched, At(sched, 2 * n + 1)), values - At(sched, 2 * n) - At(sched, 2 * n + 1);
      if k !in left then ValueVisitsAmid(keys, values, Ok(k), filter, n, sched) == ValueIteration([], read, ENOENT)
      else
        var r := filter(k, left[k], n);
        var keys', next := Without(read, r.deletes), Next(fetched, k);
        && Distinct(keys')
        && (|keys'| < |keys| || (keys' == keys && PassLeft(keys', next) < PassLeft(keys, Ok(k))))
        && ValueVisitsAmid(keys, values, Ok(k), filter, n, sched) ==
          (if r.error != 0 then ValueIteration([(k, left[k])], keys', r.error)
          else
            var rest := ValueVisitsAmid(keys', left - r.deletes, next, filter, n + 1, sched);
            ValueIteration([(k, left[k])] + rest.visited, rest.keys, rest.error))
  {
    hide Without, Next, PassLeft, Distinct, At;
    var left := values - At(sched, 2 * n) - At(sched, 2 * n + 1);
    if k in left {
      ValueAmidStep(keys, k, At(sched, 2 * n), At(sched, 2 * n + 1), filter(k, left[k], n).deletes);
    }
  }

  lemma EachStaysStep<K(!new), V>(
    keys: seq<K>, values: map<K, V>, k: K, filter: (K, V, nat) -> Reaction<K>, n: nat, sched: seq<set<K>>)
    requires Distinct(keys) && k in values
    ensures var gone, late := At(sched, 2 * n), At(sched, 2 * n + 1);
      var r, next := filter(k, values[k], n), Next(Without(keys, gone), k);
      var keys' := Without(Without(Without(keys, gone), late), r.deletes);
      && Distinct(keys')
      && (EachStays(keys, values, Ok(k), filter, n, sched) <==>
            && k !in gone + late && r.error == 0
            && (next.Ok? ==> next.value !in late + r.deletes)
            && EachStays(keys', values - gone - late - r.deletes, next, filter, n + 1, sched))
  {
    hide Without, Next, PassLeft, Distinct, At;
    ValueAmidStep(keys, k, At(sched, 2 * n), At(sched, 2 * n + 1), filter(k, values[k], n).deletes);
  }

  lemma {:induction false} EndsEarlyAmidFrom<K(!new), V>(
    keys: seq<K>, values: map<K, V>, cur: Result<K>, filter: (K, V, nat) -> Reaction<K>, n: nat, sched: seq<set<K>>)
    requires Distinct(keys) && (forall k :: k in keys <==> k in values)
    requires if cur.Ok? then cur.value in keys else cur.code == ENOENT
    ensures ValueVisitsAmid(keys, values, cur, filter, n, sched).error == 0 <==>
      EachStays(keys, values, cur, filter, n, sched)
    decreases |keys|, PassLeft(keys, cur)
  {
    if cur.Ok? {
      hide ValueVisitsAmid, EachStays, Without, Next, PassLeft, Distinct, At;
      var k, gone, late := cur.value, At(sched, 2 * n), At(sched, 2 * n + 1);
      var fetched := Without(keys, gone);
      var r, next := filter(k, values[k], n), Next(fetched, k);
      var keys', values' := Without(Without(fetched, late), r.deletes), values - gone - late - r.deletes;
      ValueVisitsAmidStep(keys, values, k, filter, n, sched);
      EachStaysStep(keys, values, k, filter, n, sched);
      if k !in gone + late && r.error == 0 {
        WithoutMembers(keys, gone);
        WithoutMembers(fetched, late);
        WithoutMembers(Without(fetched, late), r.deletes);
        NextIsMember(fetched, k);
        if next.Ok? && next.value in late + r.deletes {
          AbsentEnds(keys', values', next.value, filter, n + 1, sched);
        } else {
          EndsEarlyAmidFrom(keys', values', next, filter, n + 1, sched);
        }
      }
    } else {
      hide ValueVisitsAmid, EachStays;
      EndStays(keys, values, cur, filter, n, sched);
    }
  }

  lemma EndStays<K(!new), V>(
    keys: seq<K>, values: map<K, V>, cur: Result<K>, filter: (K, V, nat) -> Reaction<K>, n: nat, sched: seq<set<K>>)
    requires Distinct(keys) && cur == Err(ENOENT)
    ensures ValueVisitsAmid(keys, values, cur, filter, n, sched) == ValueIteration([], keys, 0)
    ensures EachStays(keys, values, cur, filter, n, sched)
  {
  }

  lemma AbsentEnds<K(!new), V>(
    keys: seq<K>, values: map<K, V>, k: K, filter: (K, V, nat) -> Reaction<K>, n: nat, sched: seq<set<K>>)
    requires Distinct(keys) && k !in values
    ensures ValueVisitsAmid(keys, values, Ok(k), filter, n, sched).error == ENOENT
  {
    hide Without, Next, PassLeft, Distinct, At;
  }

  lemma NextIsMember<K(!new)>(keys: seq<K>, k: K)
    ensures if Next(keys, k).Ok? then Next(keys, k).value in keys else Next(keys, k).code == ENOENT
  {
  }

  /** Whatever the filter and others delete, iterateWithValue succeeds exactly if every call returns 0
      and each key fetched is still there when its value is read. */
  lemma EndsEarlyAmidExactly<K(!new), V>(
    keys: seq<K>, values: map<K, V>, filter: (K, V, nat) -> Reaction<K>, others: seq<set<K>>)
    requires Distinct(keys) && forall k :: k in keys <==> k in values
    ensures var first := Without(keys, At(others, 0));
      && Distinct(first)
      && (IterateWithValueAmid(keys, values, filter, others).error == 0 <==>
            EachStays(first, values - At(others, 0), First(first), filter, 0, Drop(others, 1)))
  {
    hide ValueVisitsAmid, EachStays;
    var first := Without(keys, At(others, 0));
    WithoutDistinct(keys, At(others, 0));
    WithoutMembers(keys, At(others, 0));
    EndsEarlyAmidFrom(first, values - At(others, 0), First(first), filter, 0, Drop(others, 1));
  }

  lemma AtNone<K>(i: nat)
    ensures At<K>([], i) == {}
  {
  }

  lemma NobodyElseStep<K(!new), V>(
    keys: seq<K>, values: map<K, V>, k: K, filter: (K, V, nat) -> Reaction<K>, n: nat)
    requires Distinct(keys)
    ensures if k !in values then ValueVisitsAmid(keys, values, Ok(k), filter, n, []) == ValueIteration([], keys, ENOENT)
      else
        var r := filter(k, values[k], n);
        var keys', next := Without(keys, r.deletes), Next(keys, k);
        && Distinct(keys')
        && (|keys'| < |keys| || (keys' == keys && PassLeft(keys', next) < PassLeft(keys, Ok(k))))
        && ValueVisitsAmid(keys, values, Ok(k), filter, n, []) ==
          (if r.error != 0 then ValueIteration([(k, values[k])], keys', r.error)
          else
            var rest := ValueVisitsAmid(keys', values - r.deletes, next, filter, n + 1, []);
            ValueIteration([(k, values[k])] + rest.visited, rest.keys, rest.error))
  {
    hide ValueVisitsAmid, Without, Next, PassLeft, Distinct, At;
    ValueVisitsAmidStep(keys, values, k, filter, n, []);
    AtNone<K>(2 * n);
    AtNone<K>(2 * n + 1);
    WithoutNone(keys, {});
    assert values - {} == values;
  }

  lemma {:induction false} NobodyElseWithValue<K(!new), V>(
    keys: seq<K>, values: map<K, V>, cur: Result<K>, filter: (K, V, nat) -> Reaction<K>, n: nat)
    requires Distinct(keys) && forall k :: k in keys <==> k in values
    ensures ValueVisitsAmid(keys, values, cur, filter, n, []) == ValueVisits(keys, values, cur, filter, n)
    decreases |keys|, PassLeft(keys, cur)
  {
    if cur.Ok? {
      hide ValueVisits, ValueVisitsAmid, Without, Next, PassLeft, Distinct;
      var k := cur.value;
      NobodyElseStep(keys, values, k, filter, n);
      if k in values {
        var ks := filter(k, values[k], n).deletes;
        ValueVisitsStep(keys, values, k, filter, n);
        WithoutMembers(keys, ks);
        if filter(k, values[k], n).error == 0 {
          NobodyElseWithValue(Without(keys, ks), values - ks, Next(keys, k), filter, n + 1);
        }
      } else {
        ValueVisitsAbsent(keys, values, k, filter, n);
      }
    }
  }

  // ---- the map ----

  class BpfMap<K(==, !new), V> {
    var keys: seq<K>
    var values: map<K, V>
    var others: seq<set<K>>
    var faults: seq<int>

    ghost predicate Valid()
      reads this
    {
      && Distinct(keys)
      && (forall k :: k in keys <==> k in values)
      && (forall e :: e in faults ==> e >= 0 && e != ENOENT)
    }

    /** Nobody writes to the map, and what is deleted leaves it. */
    twostate predicate OnlyDeletes()
      reads this
    {
      && Valid()
      && (forall k :: k in values ==> k in old(values) && values[k] == old(values)[k])
      && (keys == old(keys) || |keys| < |old(keys)|)
    }

    /** A system call: others have deleted what was due before it. */
    twostate predicate Called()
      reads this
    {
      && keys == Without(old(keys), At(old(others), 0)) && values == old(values) - At(old(others), 0)
      && others == Drop(old(others), 1)
    }

    constructor (keys: seq<K>, values: map<K, V>, others: seq<set<K>>, faults: seq<int>)
      requires Distinct(keys) && (forall k :: k in keys <==> k in values)
      requires forall e :: e in faults ==> e >= 0 && e != ENOENT
      ensures Valid()
      ensures this.keys == keys && this.values == values && this.others == others && this.faults == faults
    {
      this.keys, this.values, this.others, this.faults := keys, values, others, faults;
    }

    method Remove(ks: set<K>)
      requires Valid()
      modifies this`keys, this`values
      ensures OnlyDeletes()
      ensures keys == Without(old(keys), ks) && values == old(values) - ks
    {
      WithoutDistinct(keys, ks);
      keys := Without(keys, ks);
      values := values - ks;
    }

    /** What happens before a system call, and whether it fails for reasons of its own. */
    method Enter() returns (error: int)
      requires Valid()
      modifies this
      ensures OnlyDeletes() && Called()
      ensures old(others) == [] ==> keys == old(keys) && values == old(values) && others == []
      ensures error >= 0 && error != ENOENT
      ensures old(faults) == [] ==> error == 0 && faults == []
    {
      hide Without, Distinct;
      error := 0;
      WithoutNone(keys, {});
      assert values - {} == values;
      if others != [] {
        var ks := others[0];
        others := others[1..];
        Remove(ks);
      }
      if faults != [] {
        assert faults[0] in faults;
        error := faults[0];
        assert forall e :: e in faults[1..] ==> e in faults;
        faults := faults[1..];
      }
    }

    method GetFirstKey() returns (r: Result<K>)
      requires Valid()
      modifies this
      ensures OnlyDeletes() && Called()
      ensures old(others) == [] ==> keys == old(keys) && values == old(values) && others == []
      ensures r.Err? ==> r.code > 0
      ensures r == First(keys) || (r.Err? && r.code > 0 && r.code != ENOENT)
      ensures old(faults) == [] ==> r == First(keys) && faults == []
    {
      var e := Enter();
      r := if e != 0 then Err(e) else First(keys);
    }

    method GetNextKey(k: K) returns (r: Result<K>)
      requires Valid()
      modifies this
      ensures OnlyDeletes() && Called()
      ensures old(others) == [] ==> keys == old(keys) && values == old(values) && others == []
      ensures r == Next(keys, k) || (r.Err? && r.code > 0 && r.code != ENOENT)
      ensures old(faults) == [] ==> r == Next(keys, k) && faults == []
    {
      var e := Enter();
      r := if e != 0 then Err(e) else Next(keys, k);
    }

    method ReadValue(k: K) returns (r: Result<V>)
      requires Valid()
      modifies this
      ensures OnlyDeletes() && Called()
      ensures old(others) == [] ==> keys == old(keys) && values == old(values) && others == []
      ensures r == (if k in values then Ok(values[k]) else Err(ENOENT)) || (r.Err? && r.code > 0 && r.code != ENOENT)
      ensures old(faults) == [] ==> r == (if k in values then Ok(values[k]) else Err(ENOENT)) && faults == []
    {
      var e := Enter();
      r := if e != 0 then Err(e) else if k in values then Ok(values[k]) else Err(ENOENT);
    }

    /** 0, ENOENT if the key is absent, or another error. */
    method DeleteValue(k: K) returns (error: int)
      requires Valid()
      modifies this
      ensures OnlyDeletes()
      ensures error == 0 ==> k in old(keys) && k !in keys && |keys| < |old(keys)|
      ensures error == ENOENT ==> k !in keys
      ensures old(others) == [] ==> others == []
      ensures old(others) == [] && error == 0 ==> keys == Without(old(keys), {k}) && values == old(values) - {k}
      ensures old(others) == [] && error != 0 ==> keys == old(keys) && values == old(values)
      ensures old(others) == [] && error == ENOENT ==> k !in old(keys)
      ensures old(faults) == [] ==> error in {0, ENOENT} && faults == []
    {
      error := Enter();
      if error != 0 {
        return;
      }
      if k !in values {
        return ENOENT;
      }
      WithoutSome(keys, {k}, k);
      Remove({k});
    }

    /** Writes an entry that must be new (BPF_NOEXIST); `at` is where the hash puts the key. */
    method WriteNew(k: K, v: V, at: nat) returns (error: int)
      requires Valid()
      modifies this
      ensures Valid()
      ensures old(others) == [] ==> others == []
      ensures old(faults) == [] ==> faults == [] && error in {0, EEXIST}
      ensures old(others) == [] && error != 0 ==> keys == old(keys) && values == old(values)
      ensures old(others) == [] && error == EEXIST && old(faults) == [] ==> k in old(values)
      ensures old(others) == [] && error == 0 ==> k !in old(values) && values == old(values)[k := v]
    {
      error := Enter();
      if error != 0 {
        return;
      }
      if k in values {
        return EEXIST;
      }
      var i := if at <= |keys| then at else |keys|;
      InsertDistinct(keys, i, k);
      keys := keys[..i] + [k] + keys[i..];
      values := values[k := v];
    }

    /** isEmpty: true exactly when no key was there to be seen. */
    method IsEmpty() returns (r: Result<bool>)
      requires Valid()
      modifies this
      ensures OnlyDeletes()
      ensures r.Ok? ==> (r.value <==> keys == [])
      ensures r.Err? ==> r.code != ENOENT
      ensures old(faults) == [] ==> r.Ok?
    {
      var key := GetFirstKey();
      if key.Ok? {
        return Ok(false);
      }
      if key.code == ENOENT {
        return Ok(true);
      }
      r := Err(key.code);
    }

    /** clear: ends whatever others delete meanwhile, and reports success only on an empty map. */
    method Clear() returns (error: int)
      requires Valid()
      modifies this
      ensures OnlyDeletes()
      ensures error == 0 ==> keys == [] && values == map[]
      ensures old(faults) == [] ==> error == 0
    {
      while true
        invariant OnlyDeletes()
        invariant old(faults) == [] ==> faults == []
        decreases |keys|
      {
        var key := GetFirstKey();
        if !key.Ok? {
          if key.code == ENOENT {
            assert forall k :: k in values ==> k in keys;
            return 0;
          }
          return key.code;
        }
        var res := DeleteValue(key.value);
        if res != 0 {
          if res == ENOENT {
            continue;
          }
          return res;
        }
      }
    }

    /** The body of the loop of iterate: fetch the successor, call the filter. */
    method VisitKey(k: K, filter: (K, nat) -> Reaction<K>, n: nat, ghost seen: set<K>)
      returns (nextKey: Result<K>, error: int)
      requires Valid() && Covered(keys, Ok(k), seen)
      modifies this
      ensures OnlyDeletes()
      ensures |keys| < |old(keys)| || PassLeft(keys, nextKey) < PassLeft(old(keys), Ok(k))
      ensures nextKey.Err? ==> nextKey.code > 0
      ensures nextKey.Ok? || nextKey.code == ENOENT ==> Covered(keys, nextKey, seen + {k})
      ensures error == filter(k, n).error
      ensures others == Drop(old(others), 1)
      ensures var fetched := Without(old(keys), At(old(others), 0));
        && keys == Without(fetched, filter(k, n).deletes)
        && (old(faults) == [] ==> faults == [] && nextKey == Next(fetched, k))
    {
      hide Without, Next, Covered, PassLeft, Distinct;
      nextKey := GetNextKey(k);
      CoveredShrunk(old(keys), keys, Ok(k), seen);
      NextIsCloser(keys, k);
      if nextKey.Err? {
        FaultIsCloser(keys, k, nextKey);
      }
      var reaction := filter(k, n);
      CoveredStep(keys, k, reaction.deletes, seen);
      error := reaction.error;
      Remove(reaction.deletes);
    }

    /** iterate, with what the filter is called with.  Whatever the filter and others delete, on
        success no key that is left was missed. */
    method Iterate(filter: (K, nat) -> Reaction<K>) returns (error: int, visited: seq<K>)
      requires Valid()
      modifies this
      ensures OnlyDeletes()
      ensures error == 0 ==> forall k :: k in keys ==> k in visited
      ensures old(faults) == [] ==>
        Iteration(visited, keys, error) == IterateAmid(old(keys), filter, old(others))
      ensures old(others) == [] && old(faults) == [] ==>
        Iteration(visited, keys, error) == Visits(old(keys), First(old(keys)), filter, 0)
    {
      hide Visits, VisitsAmid, IterateAmid, Without, Next, First, Covered, Distinct, Seen, PassLeft, At, Drop;
      visited := [];
      StartsAmid(keys, filter, others);
      ghost var sched, sound := Drop(others, 1), faults == [];
      var curKey := GetFirstKey();
      ghost var whole := VisitsAmid(keys, First(keys), filter, 0, sched);
      StartsCovered(keys, curKey);
      ResumeStart(whole);
      DropNone(sched);
      while curKey.Ok?
        invariant OnlyDeletes()
        invariant curKey.Err? ==> curKey.code > 0
        invariant curKey.Ok? || curKey.code == ENOENT ==> Covered(keys, curKey, Seen(visited))
        invariant others == Drop(sched, |visited|)
        invariant sound ==> faults == [] && Resumes(visited, VisitsAmid(keys, curKey, filter, |visited|, sched), whole)
        decreases |keys|, PassLeft(keys, curKey)
      {
        var k := curKey.value;
        VisitsAmidStep(keys, k, filter, |visited|, sched);
        DropTwice(sched, |visited|, 0);
        DropTwice(sched, |visited|, 1);
        if sound {
          ResumeStep(visited, keys, k, filter, sched, whole);
        }
        var nextKey, status := VisitKey(k, filter, |visited|, Seen(visited));
        SeenNext(visited, k);
        visited := visited + [k];
        if status != 0 {
          return status, visited;
        }
        curKey := nextKey;
      }
      error := if curKey.code == ENOENT then 0 else curKey.code;
      if error == 0 {
        AllCovered(keys, Seen(visited));
        SeenMembers(visited);
      }
      VisitsAmidEnd(keys, curKey.code, filter, |visited|, sched);
      assert visited + [] == visited;
    }

    /** Reads the value and calls the filter. */
    method FilterEntry(k: K, filter: (K, V, nat) -> Reaction<K>, n: nat) returns (curValue: Result<V>, error: int)
      requires Valid()
      modifies this
      ensures OnlyDeletes() && others == Drop(old(others), 1)
      ensures exists ks: set<K> :: keys == Without(old(keys), ks)
      ensures curValue.Ok? ==> k in old(values) && curValue.value == old(values)[k]
      ensures curValue.Err? ==> curValue.code > 0
      ensures old(faults) == [] ==>
        var read, left := Without(old(keys), At(old(others), 0)), old(values) - At(old(others), 0);
        && faults == []
        && (if k !in left then curValue == Err(ENOENT) && keys == read
            else
              var r := filter(k, left[k], n);
              && curValue == Ok(left[k]) && error == r.error
              && keys == Without(read, r.deletes) && values == left - r.deletes)
    {
      hide Without, Distinct, At, Drop;
      error := 0;
      ghost var gone := At(others, 0);
      curValue := ReadValue(k);
      if curValue.Ok? {
        var reaction := filter(k, curValue.value, n);
        error := reaction.error;
        WithoutTwice(old(keys), gone, reaction.deletes);
        Remove(reaction.deletes);
      }
    }

    /** The body of the loop of iterateWithValue: fetch the successor, read the value, call the
        filter. */
    method VisitEntry(k: K, filter: (K, V, nat) -> Reaction<K>, n: nat, ghost seen: set<K>)
      returns (nextKey: Result<K>, curValue: Result<V>, error: int)
      requires Valid() && Covered(keys, Ok(k), seen)
      modifies this
      ensures OnlyDeletes()
      ensures |keys| < |old(keys)| || PassLeft(keys, nextKey) < PassLeft(old(keys), Ok(k))
      ensures nextKey.Err? ==> nextKey.code > 0
      ensures nextKey.Ok? || nextKey.code == ENOENT ==> Covered(keys, nextKey, seen + {k})
      ensures curValue.Ok? ==> k in old(values) && curValue.value == old(values)[k]
      ensures curValue.Err? ==> curValue.code > 0
      ensures others == Drop(old(others), 2)
      ensures old(faults) == [] ==>
        var fetched := Without(old(keys), At(old(others), 0));
        var read, left := Without(fetched, At(old(others), 1)), old(values) - At(old(others), 0) - At(old(others), 1);
        && faults == [] && nextKey == Next(fetched, k)
        && (if k !in left then curValue == Err(ENOENT) && keys == read
            else
              var r := filter(k, left[k], n);
              && curValue == Ok(left[k]) && error == r.error
              && keys == Without(read, r.deletes) && values == left - r.deletes)
    {
      hide Without, Next, Covered, PassLeft, Distinct, At, Drop;
      DropTwice(others, 1, 0);
      DropTwice(others, 1, 1);
      nextKey := GetNextKey(k);
      CoveredShrunk(old(keys), keys, Ok(k), seen);
      CoveredNext(keys, k, seen);
      NextIsCloser(keys, k);
      if nextKey.Err? {
        FaultIsCloser(keys, k, nextKey);
      }
      ghost var fetched := keys;
      curValue, error := FilterEntry(k, filter, n);
      if nextKey == Next(fetched, k) {
        CoveredShrunk(fetched, keys, nextKey, seen + {k});
      }
    }

    /** iterateWithValue, with what the filter is called with.  Whatever the filter and others
        delete, the values are the initial ones, and on success no key that is left was missed. */
    method IterateWithValue(filter: (K, V, nat) -> Reaction<K>) returns (error: int, visited: seq<(K, V)>)
      requires Valid()
      modifies this
      ensures OnlyDeletes()
      ensures EntriesOf(visited, old(values))
      ensures error == 0 ==> forall k :: k in keys ==> k in KeysOf(visited)
      ensures old(faults) == [] ==>
        ValueIteration(visited, keys, error) == IterateWithValueAmid(old(keys), old(values), filter, old(others))
      ensures old(others) == [] && old(faults) == [] ==>
        ValueIteration(visited, keys, error) == ValueVisits(old(keys), old(values), First(old(keys)), filter, 0)
    {
      hide ValueVisits, ValueVisitsAmid, IterateWithValueAmid, ResumesValue;
      hide Without, Find, Next, First, Covered, KeysOf, PassLeft, Distinct, EntriesOf, At, Drop;
      visited := [];
      EntriesOfNone(values);
      StartsValueAmid(keys, values, filter, others);
      ghost var sched, sound := Drop(others, 1), faults == [];
      var curKey := GetFirstKey();
      ghost var whole := ValueVisitsAmid(keys, values, First(keys), filter, 0, sched);
      ResumeValueStart(whole);
      DropNone(sched);
      StartsCovered(keys, curKey);
      assert KeysOf(visited) == Seen([]);
      while curKey.Ok?
        invariant OnlyDeletes()
        invariant curKey.Err? ==> curKey.code > 0
        invariant curKey.Ok? || curKey.code == ENOENT ==> Covered(keys, curKey, KeysOf(visited))
        invariant EntriesOf(visited, old(values))
        invariant others == Drop(sched, 2 * |visited|)
        invariant sound ==>
          faults == [] && ResumesValue(visited, ValueVisitsAmid(keys, values, curKey, filter, |visited|, sched), whole)
        decreases |keys|, PassLeft(keys, curKey)
      {
        var k := curKey.value;
        DropTwice(sched, 2 * |visited|, 0);
        DropTwice(sched, 2 * |visited|, 1);
        DropTwice(sched, 2 * |visited|, 2);
        if sound {
          ResumeValueStep(visited, keys, values, k, filter, sched, whole);
        }
        var nextKey, curValue, status := VisitEntry(k, filter, |visited|, KeysOf(visited));
        if curValue.Err? {
          return curValue.code, visited;
        }
        KeysOfLast(visited, (k, curValue.value));
        EntriesOfLast(visited, (k, curValue.value), old(values));
        visited := visited + [(k, curValue.value)];
        if status != 0 {
          return status, visited;
        }
        curKey := nextKey;
      }
      error := if curKey.code == ENOENT then 0 else curKey.code;
      if error == 0 {
        AllCovered(keys, KeysOf(visited));
      }
      if sound {
        ResumeValueEnd(visited, keys, values, curKey.code, filter, sched, whole);
      }
    }
  }

  // ---- what has been seen ----

  function Seen<K>(visited: seq<K>): set<K> { set k | k in visited }

  lemma SeenMembers<K(!new)>(visited: seq<K>)
    ensures forall k :: k in Seen(visited) ==> k in visited
  {
  }

  lemma SeenNext<K>(visited: seq<K>, k: K)
    ensures Seen(visited + [k]) == Seen(visited) + {k}
  {
  }

  lemma StartsCovered<K(!new)>(keys: seq<K>, cur: Result<K>)
    requires cur.Ok? || cur.code == ENOENT ==> cur == First(keys)
    ensures cur.Ok? || cur.code == ENOENT ==> Covered(keys, cur, Seen([]))
  {
  }

  lemma AllCovered<K(!new)>(keys: seq<K>, seen: set<K>)
    requires Covered(keys, Err(ENOENT), seen)
    ensures forall k :: k in keys ==> k in seen
  {
  }

  /** A deletion between two calls leaves nothing uncovered. */
  lemma CoveredShrunk<K(!new)>(keys: seq<K>, keys': seq<K>, cur: Result<K>, seen: set<K>)
    requires Distinct(keys) && Covered(keys, cur, seen) && exists ks: set<K> :: keys' == Without(keys, ks)
    ensures Covered(keys', cur, seen)
  {
    var ks: set<K> :| keys' == Without(keys, ks);
    if cur.Ok? && cur.value in keys' {
      WithoutBefore(keys, ks, Find(keys, cur.value));
    }
  }

  lemma FaultIsCloser<K(!new)>(keys: seq<K>, k: K, next: Result<K>)
    requires next.Err?
    ensures PassLeft(keys, next) < PassLeft(keys, Ok(k))
  {
  }

  lemma CoveredNext<K(!new)>(keys: seq<K>, k: K, seen: set<K>)
    requires Distinct(keys) && Covered(keys, Ok(k), seen)
    ensures Covered(keys, Next(keys, k), seen + {k})
  {
    WithoutNone(keys, {});
    CoveredStep(keys, k, {}, seen);
  }

  /** What a loop has done so far and what it has still to do make up the whole. */
  ghost predicate Resumes<K>(done: seq<K>, rest: Iteration<K>, whole: Iteration<K>) {
    whole == Iteration(done + rest.visited, rest.keys, rest.error)
  }

  ghost predicate ResumesValue<K, V>(done: seq<(K, V)>, rest: ValueIteration<K, V>, whole: ValueIteration<K, V>) {
    whole == ValueIteration(done + rest.visited, rest.keys, rest.error)
  }

  lemma InsertDistinct<K(!new)>(keys: seq<K>, i: nat, k: K)
    requires Distinct(keys) && i <= |keys| && k !in keys
    ensures Distinct(keys[..i] + [k] + keys[i..])
    ensures forall m :: m in keys[..i] + [k] + keys[i..] <==> m == k || m in keys
  {
    var r := keys[..i] + [k] + keys[i..];
    forall m | m in keys ensures m in r {
      var j :| 0 <= j < |keys| && keys[j] == m;
      assert r[if j < i then j else j + 1] == m;
    }
    assert r[i] == k;
  }

  lemma VisitsEnd<K(!new)>(keys: seq<K>, code: int, filter: (K, nat) -> Reaction<K>, n: nat)
    requires Distinct(keys)
    ensures Visits(keys, Err(code), filter, n) == Iteration([], keys, if code == ENOENT then 0 else code)
  {
  }

  lemma ValueVisitsEnd<K(!new), V>(
    keys: seq<K>, values: map<K, V>, code: int, filter: (K, V, nat) -> Reaction<K>, n: nat)
    requires Distinct(keys)
    ensures ValueVisits(keys, values, Err(code), filter, n)
      == ValueIteration([], keys, if code == ENOENT then 0 else code)
  {
  }

  lemma ValueVisitsAbsent<K(!new), V>(
    keys: seq<K>, values: map<K, V>, k: K, filter: (K, V, nat) -> Reaction<K>, n: nat)
    requires Distinct(keys) && k !in keys
    ensures ValueVisits(keys, values, Ok(k), filter, n) == ValueIteration([], keys, ENOENT)
  {
  }

  lemma VisitsAmidEnd<K(!new)>(
    keys: seq<K>, code: int, filter: (K, nat) -> Reaction<K>, n: nat, sched: seq<set<K>>)
    requires Distinct(keys)
    ensures VisitsAmid(keys, Err(code), filter, n, sched) == Iteration([], keys, if code == ENOENT then 0 else code)
  {
  }

  lemma StartsAmid<K(!new)>(keys: seq<K>, filter: (K, nat) -> Reaction<K>, others: seq<set<K>>)
    requires Distinct(keys)
    ensures var first := Without(keys, At(others, 0));
      && Distinct(first)
      && IterateAmid(keys, filter, others) == VisitsAmid(first, First(first), filter, 0, Drop(others, 1))
    ensures others == [] ==> IterateAmid(keys, filter, others) == Visits(keys, First(keys), filter, 0)
  {
    hide Visits, VisitsAmid;
    WithoutDistinct(keys, At(others, 0));
    if others == [] {
      WithoutNone(keys, {});
      NobodyElse(keys, First(keys), filter, 0);
    }
  }

  lemma DropNone<K>(sched: seq<set<K>>)
    ensures Drop(sched, 0) == sched
  {
  }

  lemma ResumeStart<K>(whole: Iteration<K>)
    ensures Resumes([], whole, whole)
  {
    assert [] + whole.visited == whole.visited;
  }

  lemma ResumeStep<K(!new)>(
    done: seq<K>, keys: seq<K>, k: K, filter: (K, nat) -> Reaction<K>, sched: seq<set<K>>, whole: Iteration<K>)
    requires Distinct(keys) && Resumes(done, VisitsAmid(keys, Ok(k), filter, |done|, sched), whole)
    ensures var fetched, r := Without(keys, At(sched, |done|)), filter(k, |done|);
      var keys' := Without(fetched, r.deletes);
      Distinct(keys') &&
      if r.error != 0 then whole == Iteration(done + [k], keys', r.error)
      else Resumes(done + [k], VisitsAmid(keys', Next(fetched, k), filter, |done| + 1, sched), whole)
  {
    hide VisitsAmid, Without, Next, At;
    VisitsAmidStep(keys, k, filter, |done|, sched);
    var fetched := Without(keys, At(sched, |done|));
    var rest := VisitsAmid(Without(fetched, filter(k, |done|).deletes), Next(fetched, k), filter, |done| + 1, sched);
    AppendAssoc(done, [k], rest.visited);
  }

  lemma StartsValueAmid<K(!new), V>(
    keys: seq<K>, values: map<K, V>, filter: (K, V, nat) -> Reaction<K>, others: seq<set<K>>)
    requires Distinct(keys) && forall k :: k in keys <==> k in values
    ensures var first := Without(keys, At(others, 0));
      && Distinct(first)
      && IterateWithValueAmid(keys, values, filter, others) ==
           ValueVisitsAmid(first, values - At(others, 0), First(first), filter, 0, Drop(others, 1))
    ensures others == [] ==>
      IterateWithValueAmid(keys, values, filter, others) == ValueVisits(keys, values, First(keys), filter, 0)
  {
    hide ValueVisits, ValueVisitsAmid;
    WithoutDistinct(keys, At(others, 0));
    if others == [] {
      WithoutNone(keys, {});
      assert values - {} == values;
      NobodyElseWithValue(keys, values, First(keys), filter, 0);
    }
  }

  lemma ResumeValueStart<K, V>(whole: ValueIteration<K, V>)
    ensures ResumesValue([], whole, whole)
  {
    assert [] + whole.visited == whole.visited;
  }

  lemma ResumeValueEnd<K(!new), V>(
    done: seq<(K, V)>, keys: seq<K>, values: map<K, V>, code: int, filter: (K, V, nat) -> Reaction<K>,
    sched: seq<set<K>>, whole: ValueIteration<K, V>)
    requires Distinct(keys)
    requires ResumesValue(done, ValueVisitsAmid(keys, values, Err(code), filter, |done|, sched), whole)
    ensures whole == ValueIteration(done, keys, if code == ENOENT then 0 else code)
  {
    assert done + [] == done;
  }

  lemma ResumeValueStep<K(!new), V>(
    done: seq<(K, V)>, keys: seq<K>, values: map<K, V>, k: K, filter: (K, V, nat) -> Reaction<K>,
    sched: seq<set<K>>, whole: ValueIteration<K, V>)
    requires Distinct(keys)
    requires ResumesValue(done, ValueVisitsAmid(keys, values, Ok(k), filter, |done|, sched), whole)
    ensures var gone, late := At(sched, 2 * |done|), At(sched, 2 * |done| + 1);
      var fetched, left := Without(keys, gone), values - gone - late;
      if k !in left then whole == ValueIteration(done, Without(fetched, late), ENOENT)
      else
        var r := filter(k, left[k], |done|);
        var keys' := Without(Without(fetched, late), r.deletes);
        Distinct(keys') &&
        if r.error != 0 then whole == ValueIteration(done + [(k, left[k])], keys', r.error)
        else
          ResumesValue(done + [(k, left[k])],
            ValueVisitsAmid(keys', left - r.deletes, Next(fetched, k), filter, |done| + 1, sched), whole)
  {
    hide ValueVisitsAmid, Without, Next, At;
    ValueVisitsAmidStep(keys, values, k, filter, |done|, sched);
    var gone, late := At(sched, 2 * |done|), At(sched, 2 * |done| + 1);
    var fetched, left := Without(keys, gone), values - gone - late;
    assert done + [] == done;
    if k in left {
      var r := filter(k, left[k], |done|);
      var rest := ValueVisitsAmid(
        Without(Without(fetched, late), r.deletes), left - r.deletes, Next(fetched, k), filter, |done| + 1, sched);
      AppendAssoc(done, [(k, left[k])], rest.visited);
    }
  }
}
