/** The registration side of the injector as functions on the registry value:
    one `_reg_dependency` step, and the registration pass over everything the
    scans discovered. */
module Registry {
  import opened Types
  import opened Seqs

  /** `_reg_dependency` once the key is serialized: the nested-injection flag
      is written first, then a key already registered raises
      DependencyDuplicate and leaves the instances untouched; otherwise the
      key is added, last in insertion order. */
  function RegStep(w: World, sk: Key, value: ObjId, nestedAllowed: bool): (r: (Outcome, World))
    ensures WellFormed(w) && value < |w.objs| ==> WellFormed(r.1)
    ensures sk in r.1.allowed && r.1.allowed[sk] == nestedAllowed
    ensures forall k :: k in w.allowed && k != sk ==> k in r.1.allowed && r.1.allowed[k] == w.allowed[k]
    ensures r.1.objs == w.objs
    ensures r.0 == Ok <==> sk !in w.deps
    ensures r.0 != Ok ==> r.0 == Raised(DependencyDuplicate) && r.1.deps == w.deps && r.1.order == w.order
    ensures r.0 == Ok ==> && sk in r.1.deps && r.1.deps[sk] == value
                          && r.1.deps.Keys == w.deps.Keys + {sk}
                          && (forall k :: k in w.deps ==> r.1.deps[k] == w.deps[k])
                          && r.1.order == w.order + [sk]
  {
    var flagged := w.(allowed := w.allowed[sk := nestedAllowed]);
    if sk in w.deps then (Raised(DependencyDuplicate), flagged)
    else (Ok, flagged.(deps := w.deps[sk := value], order := w.order + [sk]))
  }

  /** One discovered (key, class) pair: `dep_class()` creates a fresh object,
      which `_reg_dependency(key, instance)` registers under the serialized key
      with nested injection allowed. */
  function RegisterItem(w: World, serialize: Key -> Key, item: (Key, ClassName)): (r: (Outcome, World))
    ensures WellFormed(w) ==> WellFormed(r.1)
  {
    RegStep(w.(objs := w.objs + [Obj(item.1, map[])]), serialize(item.0), |w.objs|, true)
  }

  /** The discovered pairs registered one after another, stopping at the first
      that raises; what the earlier ones did stays. */
  function RegisterItems(w: World, serialize: Key -> Key, items: seq<(Key, ClassName)>): (r: (Outcome, World))
    ensures WellFormed(w) ==> WellFormed(r.1)
    decreases |items|
  {
    if items == [] then (Ok, w)
    else
      var prev := RegisterItems(w, serialize, items[..|items| - 1]);
      if prev.0.Raised? then prev else RegisterItem(prev.1, serialize, items[|items| - 1])
  }

  /** Registering one more item after a successful prefix. */
  lemma RegisterItemsStep(w: World, serialize: Key -> Key, items: seq<(Key, ClassName)>, item: (Key, ClassName))
    requires RegisterItems(w, serialize, items).0 == Ok
    ensures RegisterItems(w, serialize, items + [item]) == RegisterItem(RegisterItems(w, serialize, items).1, serialize, item)
  {
    assert (items + [item])[..|items|] == items;
  }

  /** Registering item `k` of `items` after `before` and the items ahead of it. */
  lemma RegisterItemsStepAt(w: World, serialize: Key -> Key, before: seq<(Key, ClassName)>, items: seq<(Key, ClassName)>, k: nat)
    requires k < |items|
    requires RegisterItems(w, serialize, before + items[..k]).0 == Ok
    ensures RegisterItems(w, serialize, before + items[..k + 1])
         == RegisterItem(RegisterItems(w, serialize, before + items[..k]).1, serialize, items[k])
  {
    TakeOneMore(before, items, k);
    RegisterItemsStep(w, serialize, before + items[..k], items[k]);
  }

  /** A registration that raised at item `k` of `items` is where it ends. */
  lemma RegisterItemsAbortAt(w: World, serialize: Key -> Key, before: seq<(Key, ClassName)>, items: seq<(Key, ClassName)>, k: nat)
    requires k < |items|
    requires RegisterItems(w, serialize, before + items[..k + 1]).0.Raised?
    ensures RegisterItems(w, serialize, before + items) == RegisterItems(w, serialize, before + items[..k + 1])
  {
    SplitAt(before, items, k + 1);
    RegisterItemsAbortIsFinal(w, serialize, before + items[..k + 1], items[k + 1..]);
  }

  /** Once a registration has raised, later items are never processed. */
  lemma {:induction false} RegisterItemsAbortIsFinal(w: World, serialize: Key -> Key, items: seq<(Key, ClassName)>, rest: seq<(Key, ClassName)>)
    requires RegisterItems(w, serialize, items).0.Raised?
    ensures RegisterItems(w, serialize, items + rest) == RegisterItems(w, serialize, items)
    decreases |rest|
  {
    if rest == [] {
      assert items + rest == items;
    } else {
      var init := rest[..|rest| - 1];
      RegisterItemsAbortIsFinal(w, serialize, items, init);
      assert (items + rest)[..|items + rest| - 1] == items + init;
    }
  }

  /** The serialized keys of the discovered pairs, in order. */
  function SerializedKeys(serialize: Key -> Key, items: seq<(Key, ClassName)>): seq<Key>
  {
    seq(|items|, i requires 0 <= i < |items| => serialize(items[i].0))
  }

  /** `ks` may all be registered next to `deps`: pairwise distinct and none registered yet. */
  predicate AllFresh(deps: map<Key, ObjId>, ks: seq<Key>)
  {
    Distinct(ks) && forall i :: 0 <= i < |ks| ==> ks[i] !in deps
  }

  /** What a successful registration of `items` on top of `w` leaves in `r`:
      the keys are appended to the insertion order, key `i` is bound to the
      `i`-th newly created object, which is an instance of the `i`-th class
      with no attributes, every new key may receive nested injection, and
      earlier registrations and objects are unchanged. */
  predicate Registered(w: World, serialize: Key -> Key, items: seq<(Key, ClassName)>, r: World)
  {
    && r.order == w.order + SerializedKeys(serialize, items)
    && |r.objs| == |w.objs| + |items|
    && r.objs[..|w.objs|] == w.objs
    && (forall k :: k in w.deps ==> k in r.deps && r.deps[k] == w.deps[k])
    && (forall i :: 0 <= i < |items| ==>
          && serialize(items[i].0) in r.deps
          && r.deps[serialize(items[i].0)] == |w.objs| + i
          && r.objs[|w.objs| + i] == Obj(items[i].1, map[])
          && serialize(items[i].0) in r.allowed && r.allowed[serialize(items[i].0)])
  }

  /** When the serialized keys are fresh and pairwise distinct, registration
      succeeds and leaves exactly the registrations `Registered` describes. */
  lemma {:induction false} RegisterItemsSuccess(w: World, serialize: Key -> Key, items: seq<(Key, ClassName)>)
    requires WellFormed(w)
    requires AllFresh(w.deps, SerializedKeys(serialize, items))
    ensures RegisterItems(w, serialize, items).0 == Ok
    ensures Registered(w, serialize, items, RegisterItems(w, serialize, items).1)
    decreases |items|
  {
    if items == [] {
      assert w.order + [] == w.order;
    } else {
      var n := |items| - 1;
      var init := items[..n];
      assert items == init + [items[n]];
      FreshPrefix(w, serialize, init, items[n]);
      RegisterItemsSuccess(w, serialize, init);
      var prev := RegisterItems(w, serialize, init).1;
      RegisteredAfterStep(w, serialize, init, items[n], prev);
    }
  }

  /** The keys of a prefix of fresh, distinct keys are fresh and distinct, and
      the last key differs from all of them. */
  lemma FreshPrefix(w: World, serialize: Key -> Key, init: seq<(Key, ClassName)>, last: (Key, ClassName))
    requires AllFresh(w.deps, SerializedKeys(serialize, init + [last]))
    ensures AllFresh(w.deps, SerializedKeys(serialize, init))
    ensures serialize(last.0) !in w.deps
    ensures forall i :: 0 <= i < |init| ==> serialize(init[i].0) != serialize(last.0)
  {
    var ks := SerializedKeys(serialize, init + [last]);
    assert SerializedKeys(serialize, init) == ks[..|init|];
    assert ks[|init|] == serialize(last.0);
    forall i | 0 <= i < |init|
      ensures serialize(init[i].0) != serialize(last.0)
    {
      assert ks[i] == serialize(init[i].0);
    }
  }

  /** The inductive step of RegisterItemsSuccess on plain values: registering
      the fresh key of `last` on top of the registrations of `init`. */
  lemma RegisteredAfterStep(w: World, serialize: Key -> Key, init: seq<(Key, ClassName)>, last: (Key, ClassName), prev: World)
    requires WellFormed(w)
    requires serialize(last.0) !in w.deps
    requires forall i :: 0 <= i < |init| ==> serialize(init[i].0) != serialize(last.0)
    requires WellFormed(prev) && Registered(w, serialize, init, prev)
    ensures RegisterItem(prev, serialize, last).0 == Ok
    ensures Registered(w, serialize, init + [last], RegisterItem(prev, serialize, last).1)
  {
    var sk := serialize(last.0);
    StepIsFresh(w, SerializedKeys(serialize, init), sk, prev);
    var next := World(prev.order + [sk], prev.deps[sk := |prev.objs|], prev.allowed[sk := true],
                      prev.objs + [Obj(last.1, map[])]);
    assert RegisterItem(prev, serialize, last) == (Ok, next);
    SerializedKeysSnoc(serialize, init, last);
    RegisteredExtend(w, serialize, init, last, prev, next);
  }

  /** A key that is neither registered before nor among the keys registered
      since is not registered now. */
  lemma StepIsFresh(w: World, initKs: seq<Key>, sk: Key, prev: World)
    requires WellFormed(w) && WellFormed(prev)
    requires prev.order == w.order + initKs
    requires sk !in w.deps
    requires forall i :: 0 <= i < |initKs| ==> initKs[i] != sk
    ensures sk !in prev.deps
  {
    assert sk !in w.order;
    assert sk !in prev.order;
  }

  lemma SerializedKeysSnoc(serialize: Key -> Key, init: seq<(Key, ClassName)>, last: (Key, ClassName))
    ensures SerializedKeys(serialize, init + [last]) == SerializedKeys(serialize, init) + [serialize(last.0)]
  {
  }

  /** Registering the fresh key of `last` as a new object extends what
      `Registered` describes by that one pair. */
  lemma RegisteredExtend(w: World, serialize: Key -> Key, init: seq<(Key, ClassName)>, last: (Key, ClassName), prev: World, next: World)
    requires serialize(last.0) !in w.deps
    requires forall i :: 0 <= i < |init| ==> serialize(init[i].0) != serialize(last.0)
    requires Registered(w, serialize, init, prev)
    requires SerializedKeys(serialize, init + [last]) == SerializedKeys(serialize, init) + [serialize(last.0)]
    requires next == World(prev.order + [serialize(last.0)], prev.deps[serialize(last.0) := |prev.objs|],
                           prev.allowed[serialize(last.0) := true], prev.objs + [Obj(last.1, map[])])
    ensures Registered(w, serialize, init + [last], next)
  {
    var items := init + [last];
    assert next.objs[..|w.objs|] == prev.objs[..|w.objs|];
    forall i | 0 <= i < |items|
      ensures serialize(items[i].0) in next.deps
      ensures next.deps[serialize(items[i].0)] == |w.objs| + i
      ensures next.objs[|w.objs| + i] == Obj(items[i].1, map[])
      ensures serialize(items[i].0) in next.allowed && next.allowed[serialize(items[i].0)]
    {
      if i < |init| {
        assert items[i] == init[i];
      }
    }
  }

  /** Extending a sequence of keys by one keeps it fresh exactly when the
      prefix is fresh and the new key is neither registered nor among them. */
  lemma AllFreshSnoc(deps: map<Key, ObjId>, ks: seq<Key>, k: Key)
    ensures AllFresh(deps, ks + [k]) <==> AllFresh(deps, ks) && k !in deps && k !in ks
  {
    var all := ks + [k];
    assert forall i :: 0 <= i < |ks| ==> all[i] == ks[i];
    assert all[|ks|] == k;
  }

  /** When two serialized keys coincide, or one is already registered,
      registration raises DependencyDuplicate. */
  lemma {:induction false} RegisterItemsDuplicate(w: World, serialize: Key -> Key, items: seq<(Key, ClassName)>)
    requires WellFormed(w)
    requires !AllFresh(w.deps, SerializedKeys(serialize, items))
    ensures RegisterItems(w, serialize, items).0 == Raised(DependencyDuplicate)
    decreases |items|
  {
    var n := |items| - 1;
    var init := items[..n];
    var last := items[n];
    var initKs := SerializedKeys(serialize, init);
    var sk := serialize(last.0);
    assert items == init + [last];
    SerializedKeysSnoc(serialize, init, last);
    AllFreshSnoc(w.deps, initKs, sk);
    if !AllFresh(w.deps, initKs) {
      RegisterItemsDuplicate(w, serialize, init);
    } else {
      RegisterItemsSuccess(w, serialize, init);
      var prev := RegisterItems(w, serialize, init);
      if sk !in w.deps {
        var i :| 0 <= i < |initKs| && initKs[i] == sk;
        assert serialize(init[i].0) == sk;
      }
      assert sk in prev.1.deps;
      RegisterItemsStep(w, serialize, init, last);
    }
  }

  /** Registration succeeds exactly when the serialized keys are fresh and
      pairwise distinct; otherwise it raises DependencyDuplicate. */
  lemma RegisterItemsOutcome(w: World, serialize: Key -> Key, items: seq<(Key, ClassName)>)
    requires WellFormed(w)
    ensures var o := RegisterItems(w, serialize, items).0;
      && (o == Ok <==> AllFresh(w.deps, SerializedKeys(serialize, items)))
      && (o != Ok ==> o == Raised(DependencyDuplicate))
  {
    if AllFresh(w.deps, SerializedKeys(serialize, items)) {
      RegisterItemsSuccess(w, serialize, items);
    } else {
      RegisterItemsDuplicate(w, serialize, items);
    }
  }

  /** Whatever the outcome, a registration pass never rebinds or removes an
      earlier entry: a colliding key, in particular, stops the pass and
      leaves the first registration's instance in place. */
  lemma {:induction false} RegisterItemsKeepsEntries(w: World, serialize: Key -> Key, items: seq<(Key, ClassName)>)
    ensures var r := RegisterItems(w, serialize, items).1;
      forall k :: k in w.deps ==> k in r.deps && r.deps[k] == w.deps[k]
    decreases |items|
  {
    if items != [] {
      RegisterItemsKeepsEntries(w, serialize, items[..|items| - 1]);
    }
  }

  /** A registration pass whose keys are fresh and pairwise distinct leaves
      the nested-injection flag of every earlier entry as it was. (A pass that
      stops on a duplicate does overwrite the colliding key's flag.) */
  lemma {:induction false} RegisterItemsKeepsFlags(w: World, serialize: Key -> Key, items: seq<(Key, ClassName)>)
    requires WellFormed(w)
    requires AllFresh(w.deps, SerializedKeys(serialize, items))
    ensures var r := RegisterItems(w, serialize, items).1;
      forall k :: k in w.deps ==> k in r.allowed && r.allowed[k] == w.allowed[k]
    decreases |items|
  {
    if items != [] {
      var n := |items| - 1;
      var init := items[..n];
      assert items == init + [items[n]];
      FreshPrefix(w, serialize, init, items[n]);
      RegisterItemsKeepsFlags(w, serialize, init);
    }
  }

  /** After a successful registration, the instance of the `i`-th discovered
      pair is bound to no other key. */
  lemma RegisteredIdUnshared(w: World, serialize: Key -> Key, items: seq<(Key, ClassName)>, r: World, i: nat)
    requires WellFormed(w) && WellFormed(r)
    requires Registered(w, serialize, items, r)
    requires i < |items|
    ensures forall other :: other in r.deps && other != serialize(items[i].0) ==> r.deps[other] != |w.objs| + i
  {
    forall other | other in r.deps && other != serialize(items[i].0)
      ensures r.deps[other] != |w.objs| + i
    {
      assert other in r.order;
      if other in w.order {
        assert other in w.deps && r.deps[other] == w.deps[other];
      } else {
        NewKeyId(w, serialize, items, r, i, other);
      }
    }
  }

  /** A key the registration appended is bound to the instance of its own
      pair, so to a different one than the `i`-th pair's when its key differs. */
  lemma NewKeyId(w: World, serialize: Key -> Key, items: seq<(Key, ClassName)>, r: World, i: nat, other: Key)
    requires Registered(w, serialize, items, r)
    requires i < |items|
    requires other in SerializedKeys(serialize, items) && other != serialize(items[i].0)
    ensures other in r.deps && r.deps[other] != |w.objs| + i
  {
    var ks := SerializedKeys(serialize, items);
    var i' :| 0 <= i' < |ks| && ks[i'] == other;
    RegisteredAt(w, serialize, items, r, i');
  }

  /** What `Registered` says about the `i`-th pair. */
  lemma RegisteredAt(w: World, serialize: Key -> Key, items: seq<(Key, ClassName)>, r: World, i: nat)
    requires Registered(w, serialize, items, r)
    requires i < |items|
    ensures serialize(items[i].0) in r.deps && r.deps[serialize(items[i].0)] == |w.objs| + i
    ensures FreshEntry(r.deps, r.objs, serialize(items[i].0), |w.objs| + i, items[i].1)
    ensures serialize(items[i].0) in r.allowed && r.allowed[serialize(items[i].0)]
  {
  }
}
