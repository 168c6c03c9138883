/** A Python `dict` with `str` keys: a map together with the insertion order of its keys,
    which is the order iteration and `list(d)` follow. */
module PyDict {

  datatype Dict<V> = Dict(keys: seq<string>, vals: map<string, V>)
  {
    /** Keys are listed once each, and exactly the keys of the map are listed. */
    ghost predicate Valid()
    {
      Distinct(keys) && forall k :: k in vals <==> k in keys
    }
  }

  ghost predicate Distinct(xs: seq<string>)
  {
    forall i, j :: 0 <= i < j < |xs| ==> xs[i] != xs[j]
  }

  /** `dict()` */
  function Empty<V>(): Dict<V>
  {
    Dict([], map[])
  }

  lemma EmptyValid<V>()
    ensures Empty<V>().Valid()
  {
  }

  /** `d[k] = v`: a new key goes to the end of the order, an existing key
      keeps its place and gets the new value. */
  function Set<V>(d: Dict<V>, k: string, v: V): Dict<V>
  {
    Dict(if k in d.vals then d.keys else d.keys + [k], d.vals[k := v])
  }

  /** Assignment keeps the dict consistent and changes only the entry
      under `k`. */
  lemma SetValid<V>(d: Dict<V>, k: string, v: V)
    requires d.Valid()
    ensures Set(d, k, v).Valid()
    ensures |Set(d, k, v).keys| == if k in d.vals then |d.keys| else |d.keys| + 1
    ensures Set(d, k, v).keys == if k in d.vals then d.keys else d.keys + [k]
    ensures forall x :: x in Set(d, k, v).vals <==> x in d.vals || x == k
    ensures Set(d, k, v).vals[k] == v
  {
  }

  /** After `d[k] = v`, `d[k]` is `v` and every other key keeps its
      value. */
  lemma SetLookup<V>(d: Dict<V>, k: string, v: V)
    ensures k in Set(d, k, v).vals && Set(d, k, v).vals[k] == v
    ensures forall x :: x in d.vals && x != k ==> x in Set(d, k, v).vals && Set(d, k, v).vals[x] == d.vals[x]
  {
  }

  /** `xs` without `x`. */
  function Without(xs: seq<string>, x: string): (r: seq<string>)
    ensures forall y :: y in r <==> y in xs && y != x
    decreases |xs|
  {
    if xs == [] then []
    else if xs[0] == x then Without(xs[1..], x)
    else [xs[0]] + Without(xs[1..], x)
  }

  /** Removing a key from a list without repeats leaves none. */
  lemma {:induction false} WithoutDistinct(xs: seq<string>, x: string)
    requires Distinct(xs)
    ensures Distinct(Without(xs, x))
    decreases |xs|
  {
    if xs != [] {
      WithoutDistinct(xs[1..], x);
      assert xs[0] !in xs[1..];
    }
  }

  lemma {:induction false} WithoutAbsent(xs: seq<string>, x: string)
    requires x !in xs
    ensures Without(xs, x) == xs
    decreases |xs|
  {
    if xs != [] {
      WithoutAbsent(xs[1..], x);
      assert xs == [xs[0]] + xs[1..];
    }
  }

  /** Dropping a key that occurs once, between two runs without it. */
  lemma {:induction false} WithoutMiddle(a: seq<string>, x: string, b: seq<string>)
    requires x !in a && x !in b
    ensures Without(a + [x] + b, x) == a + b
    decreases |a|
  {
    if a == [] {
      assert a + [x] + b == [x] + b;
      assert ([x] + b)[1..] == b;
      WithoutAbsent(b, x);
    } else {
      assert (a + [x] + b)[1..] == a[1..] + [x] + b;
      WithoutMiddle(a[1..], x, b);
      assert a + b == [a[0]] + (a[1..] + b);
    }
  }

  /** `d.pop(k)` for a key that is present. */
  function Pop<V>(d: Dict<V>, k: string): Dict<V>
    requires k in d.vals
  {
    Dict(Without(d.keys, k), d.vals - {k})
  }

  /** Popping keeps the dict consistent and removes exactly `k`. */
  lemma PopValid<V>(d: Dict<V>, k: string)
    requires d.Valid() && k in d.vals
    ensures Pop(d, k).Valid()
    ensures forall x :: x in Pop(d, k).vals <==> x in d.vals && x != k
  {
    WithoutDistinct(d.keys, k);
  }

  /** The keys among `keys` whose value satisfies `keep`, in order. */
  function KeysWhere<V>(keys: seq<string>, vals: map<string, V>, keep: V -> bool): (r: seq<string>)
    requires forall k :: k in keys ==> k in vals
    ensures forall k :: k in r <==> k in keys && keep(vals[k])
    decreases |keys|
  {
    if keys == [] then []
    else
      var init := keys[..|keys| - 1];
      var last := keys[|keys| - 1];
      assert keys == init + [last];
      KeysWhere(init, vals, keep) + if keep(vals[last]) then [last] else []
  }

  /** Filtering a list without repeats leaves none. */
  lemma {:induction false} KeysWhereDistinct<V>(keys: seq<string>, vals: map<string, V>, keep: V -> bool)
    requires forall k :: k in keys ==> k in vals
    requires Distinct(keys)
    ensures Distinct(KeysWhere(keys, vals, keep))
    decreases |keys|
  {
    if keys != [] {
      var init := keys[..|keys| - 1];
      var last := keys[|keys| - 1];
      assert keys == init + [last];
      assert last !in init;
      KeysWhereDistinct(init, vals, keep);
    }
  }

  /** Filtering a concatenation filters each part. */
  lemma {:induction false} KeysWhereAppend<V>(a: seq<string>, b: seq<string>, vals: map<string, V>, keep: V -> bool)
    requires forall k :: k in a + b ==> k in vals
    ensures KeysWhere(a + b, vals, keep) == KeysWhere(a, vals, keep) + KeysWhere(b, vals, keep)
    decreases |b|
  {
    if b == [] {
      assert a + b == a;
    } else {
      var init := b[..|b| - 1];
      assert (a + b)[..|a + b| - 1] == a + init;
      assert (a + b)[|a + b| - 1] == b[|b| - 1];
      KeysWhereAppend(a, init, vals, keep);
    }
  }

  /** When every value passes, filtering keeps every key. */
  lemma {:induction false} KeysWhereAll<V>(keys: seq<string>, vals: map<string, V>, keep: V -> bool)
    requires forall k :: k in keys ==> k in vals && keep(vals[k])
    ensures KeysWhere(keys, vals, keep) == keys
    decreases |keys|
  {
    if keys != [] {
      var init := keys[..|keys| - 1];
      assert keys == init + [keys[|keys| - 1]];
      KeysWhereAll(init, vals, keep);
    }
  }

  /** `{k: v for k, v in d.items() if keep(v)}`: the entries whose value
      satisfies `keep`, in their original order and with their values. */
  function Filter<V>(d: Dict<V>, keep: V -> bool): (r: Dict<V>)
    requires d.Valid()
    ensures forall k :: k in r.vals <==> k in d.vals && keep(d.vals[k])
    ensures forall k :: k in r.vals ==> r.vals[k] == d.vals[k]
  {
    var ks := KeysWhere(d.keys, d.vals, keep);
    Dict(ks, map k | k in ks :: d.vals[k])
  }

  /** Filtering keeps the dict consistent. */
  lemma FilterValid<V>(d: Dict<V>, keep: V -> bool)
    requires d.Valid()
    ensures Filter(d, keep).Valid()
  {
    KeysWhereDistinct(d.keys, d.vals, keep);
  }

  /** The keys left part way through the pruning loop: the visited
      keys that pass `keep`, then the keys not visited yet. */
  ghost function PrunedKeySeq<V>(keys: seq<string>, vals: map<string, V>, keep: V -> bool, i: nat): (ks: seq<string>)
    requires i <= |keys| && forall k :: k in keys ==> k in vals
    ensures forall k :: k in ks ==> k in keys
  {
    assert forall k :: k in keys[..i] ==> k in keys;
    KeysWhere(keys[..i], vals, keep) + keys[i..]
  }

  /** The entries of `vals` under the keys `ks`. */
  function Restrict<V>(vals: map<string, V>, ks: seq<string>): (m: map<string, V>)
    requires forall k :: k in ks ==> k in vals
    ensures forall k :: k in m <==> k in ks
  {
    map k | k in ks :: vals[k]
  }

  /** Restricting to a key list without `x` drops `x`. */
  lemma RestrictWithout<V>(vals: map<string, V>, ks: seq<string>, x: string)
    requires forall k :: k in ks ==> k in vals
    ensures Restrict(vals, Without(ks, x)) == Restrict(vals, ks) - {x}
  {
    var m := Restrict(vals, ks) - {x};
    forall k ensures k in Restrict(vals, Without(ks, x)) <==> k in m {
    }
  }

  /** `d` part way through `for k in list(d): if not keep(d[k]): d.pop(k)`:
      the first `i` keys of the snapshot have been visited. */
  ghost function Pruned<V>(d: Dict<V>, keep: V -> bool, i: nat): Dict<V>
    requires d.Valid() && i <= |d.keys|
  {
    var ks := PrunedKeySeq(d.keys, d.vals, keep, i);
    Dict(ks, Restrict(d.vals, ks))
  }

  lemma PrunedStart<V>(d: Dict<V>, keep: V -> bool)
    requires d.Valid()
    ensures Pruned(d, keep, 0) == d
  {
    assert d.keys[..0] == [] && d.keys[0..] == d.keys;
  }

  lemma PrunedEnd<V>(d: Dict<V>, keep: V -> bool)
    requires d.Valid()
    ensures Pruned(d, keep, |d.keys|) == Filter(d, keep)
  {
    assert d.keys[..|d.keys|] == d.keys;
  }

  lemma PrunedValid<V>(d: Dict<V>, keep: V -> bool, i: nat)
    requires d.Valid() && i <= |d.keys|
    ensures Pruned(d, keep, i).Valid()
  {
    var ks := d.keys;
    assert forall x :: x in ks[..i] ==> x in ks;
    var kept := KeysWhere(ks[..i], d.vals, keep);
    KeysWhereDistinct(ks[..i], d.vals, keep);
    var all := kept + ks[i..];
    forall a, b | 0 <= a < b < |all| ensures all[a] != all[b] {
      if b < |kept| {
      } else if a >= |kept| {
        assert all[a] == ks[i + (a - |kept|)];
        assert all[b] == ks[i + (b - |kept|)];
      } else {
        assert all[a] in ks[..i];
        assert all[b] in ks[i..];
      }
    }
  }

  /** Filtering one more key of a list. */
  lemma KeysWhereSnoc<V>(keys: seq<string>, vals: map<string, V>, keep: V -> bool, i: nat)
    requires i < |keys| && forall k :: k in keys ==> k in vals
    ensures forall k :: k in keys[..i] ==> k in vals
    ensures KeysWhere(keys[..i + 1], vals, keep)
      == KeysWhere(keys[..i], vals, keep) + if keep(vals[keys[i]]) then [keys[i]] else []
  {
    assert keys[..i + 1][..i] == keys[..i];
    assert forall k :: k in keys[..i] ==> k in keys;
  }

  /** A key of a list without repeats occurs neither before nor after its
      own place. */
  lemma DistinctAt(xs: seq<string>, i: nat)
    requires Distinct(xs) && i < |xs|
    ensures xs[i] !in xs[..i] && xs[i] !in xs[i + 1..]
    ensures xs[i..] == [xs[i]] + xs[i + 1..]
  {
  }

  /** One step of the pruning loop on the key order, for a key that
      occurs once. */
  lemma PrunedKeySeqStep<V>(keys: seq<string>, vals: map<string, V>, keep: V -> bool, i: nat)
    requires i < |keys| && forall k :: k in keys ==> k in vals
    requires keys[i] !in keys[..i] && keys[i] !in keys[i + 1..]
    ensures PrunedKeySeq(keys, vals, keep, i + 1) ==
      if keep(vals[keys[i]]) then PrunedKeySeq(keys, vals, keep, i)
      else Without(PrunedKeySeq(keys, vals, keep, i), keys[i])
  {
    var k := keys[i];
    var rest := keys[i + 1..];
    assert forall x :: x in keys[..i] ==> x in vals by {
      assert forall x :: x in keys[..i] ==> x in keys;
    }
    var kept := KeysWhere(keys[..i], vals, keep);
    assert PrunedKeySeq(keys, vals, keep, i) == kept + [k] + rest by {
      assert keys[i..] == [k] + rest;
    }
    assert PrunedKeySeq(keys, vals, keep, i + 1) == kept + (if keep(vals[k]) then [k] else []) + rest by {
      KeysWhereSnoc(keys, vals, keep, i);
    }
    if !keep(vals[k]) {
      assert Without(kept + [k] + rest, k) == kept + rest by {
        WithoutMiddle(kept, k, rest);
      }
    }
  }

  lemma PrunedKeys<V>(d: Dict<V>, keep: V -> bool, i: nat)
    requires d.Valid() && i < |d.keys|
    ensures Pruned(d, keep, i + 1).keys ==
      if keep(d.vals[d.keys[i]]) then Pruned(d, keep, i).keys else Without(Pruned(d, keep, i).keys, d.keys[i])
  {
    DistinctAt(d.keys, i);
    PrunedKeySeqStep(d.keys, d.vals, keep, i);
  }

  /** The key about to be visited is still there, with its value. */
  lemma PrunedHolds<V>(d: Dict<V>, keep: V -> bool, i: nat)
    requires d.Valid() && i < |d.keys|
    ensures d.keys[i] in Pruned(d, keep, i).vals
    ensures Pruned(d, keep, i).vals[d.keys[i]] == d.vals[d.keys[i]]
  {
    assert d.keys[i] in d.keys[i..];
  }

  lemma PrunedVals<V>(d: Dict<V>, keep: V -> bool, i: nat)
    requires d.Valid() && i < |d.keys|
    ensures Pruned(d, keep, i + 1).vals ==
      if keep(d.vals[d.keys[i]]) then Pruned(d, keep, i).vals else Pruned(d, keep, i).vals - {d.keys[i]}
  {
    var k := d.keys[i];
    var ks := Pruned(d, keep, i).keys;
    assert Pruned(d, keep, i + 1).keys == if keep(d.vals[k]) then ks else Without(ks, k) by {
      PrunedKeys(d, keep, i);
    }
    if !keep(d.vals[k]) {
      RestrictWithout(d.vals, ks, k);
    }
  }

  /** One step of the pruning loop: the visited key is popped exactly when
      its value fails `keep`. */
  lemma PrunedStep<V>(d: Dict<V>, keep: V -> bool, i: nat)
    requires d.Valid() && i < |d.keys|
    ensures Pruned(d, keep, i).Valid()
    ensures d.keys[i] in Pruned(d, keep, i).vals
    ensures Pruned(d, keep, i).vals[d.keys[i]] == d.vals[d.keys[i]]
    ensures Pruned(d, keep, i + 1) ==
      if keep(d.vals[d.keys[i]]) then Pruned(d, keep, i) else Pop(Pruned(d, keep, i), d.keys[i])
  {
    PrunedValid(d, keep, i);
    PrunedHolds(d, keep, i);
    PrunedKeys(d, keep, i);
    PrunedVals(d, keep, i);
  }

  /** `xs` with later repeats dropped: the key order of a dict that is
      assigned the keys `xs` one after another. */
  function Dedup(xs: seq<string>): (r: seq<string>)
    ensures Distinct(r)
    ensures forall x :: x in r <==> x in xs
    decreases |xs|
  {
    if xs == [] then []
    else
      var init := Dedup(xs[..|xs| - 1]);
      var last := xs[|xs| - 1];
      assert xs == xs[..|xs| - 1] + [last];
      if last in init then init else init + [last]
  }

  lemma DedupSnoc(xs: seq<string>, y: string)
    ensures Dedup(xs + [y]) == if y in xs then Dedup(xs) else Dedup(xs) + [y]
  {
    assert (xs + [y])[..|xs|] == xs;
  }

  /** The keys of a list of pairs, in order. */
  function KeysOf<V>(kvs: seq<(string, V)>): (ks: seq<string>)
    ensures |ks| == |kvs| && forall i :: 0 <= i < |kvs| ==> ks[i] == kvs[i].0
    decreases |kvs|
  {
    if kvs == [] then [] else KeysOf(kvs[..|kvs| - 1]) + [kvs[|kvs| - 1].0]
  }

  /** `for k, v in kvs: d[k] = v` */
  function SetAll<V>(d: Dict<V>, kvs: seq<(string, V)>): Dict<V>
    decreases |kvs|
  {
    if kvs == [] then d
    else
      var n := |kvs| - 1;
      Set(SetAll(d, kvs[..n]), kvs[n].0, kvs[n].1)
  }

  lemma SetAllSnoc<V>(d: Dict<V>, kvs: seq<(string, V)>, k: string, v: V)
    ensures SetAll(d, kvs + [(k, v)]) == Set(SetAll(d, kvs), k, v)
  {
    assert (kvs + [(k, v)])[..|kvs|] == kvs;
  }

  lemma {:induction false} SetAllValid<V>(d: Dict<V>, kvs: seq<(string, V)>)
    requires d.Valid()
    ensures SetAll(d, kvs).Valid()
    decreases |kvs|
  {
    if kvs != [] {
      var n := |kvs| - 1;
      SetAllValid(d, kvs[..n]);
      SetValid(SetAll(d, kvs[..n]), kvs[n].0, kvs[n].1);
    }
  }

  /** No later pair has the key of the pair at index `i`. */
  predicate LastKey<V>(kvs: seq<(string, V)>, i: nat)
    requires i < |kvs|
  {
    forall j :: i < j < |kvs| ==> kvs[j].0 != kvs[i].0
  }

  /** After the assignments the dict holds the old keys and the assigned
      ones, and no others. */
  lemma {:induction false} SetAllMembers<V>(d: Dict<V>, kvs: seq<(string, V)>)
    ensures forall k :: k in SetAll(d, kvs).vals <==> k in d.vals || k in KeysOf(kvs)
    decreases |kvs|
  {
    if kvs != [] {
      var n := |kvs| - 1;
      SetAllMembers(d, kvs[..n]);
      assert KeysOf(kvs) == KeysOf(kvs[..n]) + [kvs[n].0];
    }
  }

  /** Assigning pairs whose keys are new to `d` appends their keys in
      first-seen order. */
  lemma {:induction false} SetAllKeys<V>(d: Dict<V>, kvs: seq<(string, V)>)
    requires forall i :: 0 <= i < |kvs| ==> kvs[i].0 !in d.vals
    ensures SetAll(d, kvs).keys == d.keys + Dedup(KeysOf(kvs))
    decreases |kvs|
  {
    if kvs != [] {
      var n := |kvs| - 1;
      var init := kvs[..n];
      var k := kvs[n].0;
      var before := SetAll(d, init);
      var seen := KeysOf(init);
      assert before.keys == d.keys + Dedup(seen) by {
        forall i | 0 <= i < |init| ensures init[i].0 !in d.vals {
          assert init[i] == kvs[i];
        }
        SetAllKeys(d, init);
      }
      assert k in before.vals <==> k in seen by {
        SetAllMembers(d, init);
      }
      assert Dedup(KeysOf(kvs)) == if k in seen then Dedup(seen) else Dedup(seen) + [k] by {
        assert KeysOf(kvs) == seen + [k];
        DedupSnoc(seen, k);
      }
      SetAllSnoc(d, init, k, kvs[n].1);
      assert kvs == init + [(k, kvs[n].1)];
      assert d.keys + Dedup(seen) + [k] == d.keys + (Dedup(seen) + [k]);
    }
  }

  /** Assigning pairs none of which has the key of a one-entry dict keeps
      that entry first and appends the assigned keys in first-seen order. */
  lemma SetAllOnto<V>(d: Dict<V>, kvs: seq<(string, V)>, k: string, v: V)
    requires d == Set(Empty(), k, v) && k !in KeysOf(kvs)
    ensures SetAll(d, kvs).keys == [k] + Dedup(KeysOf(kvs))
    ensures forall x :: x in SetAll(d, kvs).vals <==> x == k || x in KeysOf(kvs)
    ensures k in SetAll(d, kvs).vals && SetAll(d, kvs).vals[k] == v
  {
    assert forall i :: 0 <= i < |kvs| ==> kvs[i].0 !in d.vals by {
      forall i | 0 <= i < |kvs| ensures kvs[i].0 != k {
        assert kvs[i].0 == KeysOf(kvs)[i];
      }
    }
    SetAllKeys(d, kvs);
    SetAllMembers(d, kvs);
    SetAllUntouched(d, kvs, k);
  }

  /** The value under a key is the one of the last pair with that key. */
  lemma {:induction false} SetAllLast<V>(d: Dict<V>, kvs: seq<(string, V)>, i: nat)
    requires i < |kvs| && LastKey(kvs, i)
    ensures kvs[i].0 in SetAll(d, kvs).vals && SetAll(d, kvs).vals[kvs[i].0] == kvs[i].1
    decreases |kvs|
  {
    var n := |kvs| - 1;
    var init := kvs[..n];
    if i < n {
      assert LastKey(init, i);
      SetAllLast(d, init, i);
      assert kvs[n].0 != kvs[i].0;
    }
  }

  /** A key that no pair mentions keeps its value. */
  lemma {:induction false} SetAllUntouched<V>(d: Dict<V>, kvs: seq<(string, V)>, k: string)
    requires k in d.vals && k !in KeysOf(kvs)
    ensures k in SetAll(d, kvs).vals && SetAll(d, kvs).vals[k] == d.vals[k]
    decreases |kvs|
  {
    if kvs != [] {
      var n := |kvs| - 1;
      assert KeysOf(kvs) == KeysOf(kvs[..n]) + [kvs[n].0];
      SetAllUntouched(d, kvs[..n], k);
    }
  }

  /** Every value of the result is an old one under a key no pair mentions,
      or the value of a pair with its key. */
  lemma {:induction false} SetAllValues<V>(d: Dict<V>, kvs: seq<(string, V)>, k: string)
    requires k in SetAll(d, kvs).vals
    ensures k !in KeysOf(kvs) ==> k in d.vals && SetAll(d, kvs).vals[k] == d.vals[k]
    ensures k in KeysOf(kvs) ==> exists j :: 0 <= j < |kvs| && kvs[j] == (k, SetAll(d, kvs).vals[k])
    decreases |kvs|
  {
    if kvs != [] {
      var n := |kvs| - 1;
      var init := kvs[..n];
      assert KeysOf(kvs) == KeysOf(init) + [kvs[n].0];
      if k != kvs[n].0 {
        SetAllValues(d, init, k);
        if k in KeysOf(init) {
          var j :| 0 <= j < |init| && init[j] == (k, SetAll(d, init).vals[k]);
          assert kvs[j] == init[j];
        }
      } else {
        assert kvs[n] == (k, SetAll(d, kvs).vals[k]);
      }
    }
  }

  /** `{k: f(k, v) for k, v in d.items()}`: the same keys in the same
      order, each value replaced by `f` of its key and value. */
  function MapValues<V>(d: Dict<V>, f: (string, V) --> V): Dict<V>
    requires forall k :: k in d.vals ==> f.requires(k, d.vals[k])
  {
    Dict(d.keys, map k | k in d.vals :: f(k, d.vals[k]))
  }

  /** `for k in d: d[k] = f(k, d[k])` after the first `i` keys. */
  function UpdatedUpTo<V>(d: Dict<V>, f: (string, V) --> V, i: nat): Dict<V>
    requires i <= |d.keys|
    requires forall k :: k in d.vals ==> f.requires(k, d.vals[k])
  {
    Dict(d.keys, map k | k in d.vals :: if k in d.keys[..i] then f(k, d.vals[k]) else d.vals[k])
  }

  /** Before the loop the dict is untouched; after it every value has been
      replaced. */
  lemma UpdatedUpToEnds<V>(d: Dict<V>, f: (string, V) --> V)
    requires d.Valid()
    requires forall k :: k in d.vals ==> f.requires(k, d.vals[k])
    ensures UpdatedUpTo(d, f, 0) == d
    ensures UpdatedUpTo(d, f, |d.keys|) == MapValues(d, f)
  {
    assert d.keys[..|d.keys|] == d.keys;
  }

  /** Step `i` of the loop: key `i` still holds its old value, and
      assigning `f` of it moves on to step `i + 1`. Keys are distinct, so
      no key is updated twice. */
  lemma UpdatedUpToStep<V>(d: Dict<V>, f: (string, V) --> V, i: nat)
    requires d.Valid() && i < |d.keys|
    requires forall k :: k in d.vals ==> f.requires(k, d.vals[k])
    ensures var k := d.keys[i];
      k in UpdatedUpTo(d, f, i).vals && UpdatedUpTo(d, f, i).vals[k] == d.vals[k]
      && UpdatedUpTo(d, f, i + 1) == Set(UpdatedUpTo(d, f, i), k, f(k, d.vals[k]))
  {
    var k := d.keys[i];
    assert k !in d.keys[..i] by {
      assert forall j :: 0 <= j < i ==> d.keys[j] != d.keys[i];
    }
    assert d.keys[..i + 1] == d.keys[..i] + [k];
    var before := UpdatedUpTo(d, f, i).vals;
    var after := UpdatedUpTo(d, f, i + 1).vals;
    assert k in d.vals;
    assert after == before[k := f(k, d.vals[k])] by {
      forall x | x in d.vals ensures after[x] == before[k := f(k, d.vals[k])][x] {
        assert x in d.keys[..i + 1] <==> x in d.keys[..i] || x == k;
      }
    }
  }

}
