/** The injection side of the injector as functions on values: what
    `_inject_dependencies` does to one container, and the injection pass of
    `inject` over the registry in insertion order. */
module Injection {
  import opened Types

  /** `get_dependencies(container)`: the attribute name and the requested key
      of each dependency a component of the given class declares, in order. */
  type Introspector = ClassName -> seq<Request>

  predicate Resolvable(deps: map<Key, ObjId>, reqs: seq<Request>)
  {
    forall j :: 0 <= j < |reqs| ==> reqs[j].asked in deps
  }

  /** The position of the first request whose key is not registered, or the
      number of requests when every one is. */
  function FirstMissing(reqs: seq<Request>, deps: map<Key, ObjId>): (cut: nat)
    ensures cut <= |reqs|
    ensures Resolvable(deps, reqs[..cut])
    ensures cut < |reqs| ==> reqs[cut].asked !in deps
  {
    if reqs == [] then 0
    else if reqs[0].asked !in deps then 0
    else
      var cut := 1 + FirstMissing(reqs[1..], deps);
      assert forall j :: 1 <= j < cut ==> reqs[..cut][j] == reqs[1..][..cut - 1][j - 1];
      cut
  }

  /** The attributes after each request in turn has set its attribute to the
      instance registered under its key. */
  function Apply(attrs: map<AttrName, ObjId>, deps: map<Key, ObjId>, reqs: seq<Request>): map<AttrName, ObjId>
    requires Resolvable(deps, reqs)
  {
    if reqs == [] then attrs
    else
      var last := reqs[|reqs| - 1];
      Apply(attrs, deps, reqs[..|reqs| - 1])[last.name := deps[last.asked]]
  }

  /** The last request that names attribute `name`, or -1 when none does. */
  function LastAssignment(reqs: seq<Request>, name: AttrName): (j: int)
    ensures -1 <= j < |reqs|
    ensures 0 <= j ==> reqs[j].name == name
    ensures forall i :: j < i < |reqs| ==> reqs[i].name != name
  {
    if reqs == [] then -1
    else if reqs[|reqs| - 1].name == name then |reqs| - 1
    else LastAssignment(reqs[..|reqs| - 1], name)
  }

  /** The last request naming an attribute decides its value; an attribute no
      request names keeps its value, or stays absent. */
  lemma {:induction false} ApplyLastWriterWins(attrs: map<AttrName, ObjId>, deps: map<Key, ObjId>, reqs: seq<Request>, name: AttrName)
    requires Resolvable(deps, reqs)
    ensures var a := Apply(attrs, deps, reqs);
      var j := LastAssignment(reqs, name);
      && (0 <= j ==> name in a && a[name] == deps[reqs[j].asked])
      && (j < 0 ==> (name in a <==> name in attrs) && (name in attrs ==> a[name] == attrs[name]))
  {
    if reqs != [] {
      var init := reqs[..|reqs| - 1];
      ApplyLastWriterWins(attrs, deps, init, name);
      if reqs[|reqs| - 1].name != name {
        var j := LastAssignment(init, name);
        assert 0 <= j ==> reqs[j] == init[j];
      }
    }
  }

  /** `_inject_dependencies(container)`: the requests are served in order
      until the first whose key is not registered, which raises
      DependencyDoesNotRegistred; the assignments before it stay, that
      request and the later ones are not applied, and no other object changes. */
  function InjectInto(objs: seq<Obj>, deps: map<Key, ObjId>, container: ObjId, reqs: seq<Request>): (r: (Outcome, seq<Obj>))
    requires container < |objs|
    ensures |r.1| == |objs|
    ensures forall o :: 0 <= o < |objs| ==> r.1[o].cls == objs[o].cls
    ensures forall o :: 0 <= o < |objs| && o != container ==> r.1[o] == objs[o]
    ensures r.0 == Ok <==> Resolvable(deps, reqs)
    ensures r.0 != Ok ==> r.0 == Raised(DependencyDoesNotRegistred)
  {
    var cut := FirstMissing(reqs, deps);
    assert cut == |reqs| ==> reqs[..cut] == reqs;
    var attrs := Apply(objs[container].attrs, deps, reqs[..cut]);
    (if cut == |reqs| then Ok else Raised(DependencyDoesNotRegistred),
     objs[container := objs[container].(attrs := attrs)])
  }

  /** When every request resolves, the container's attributes are the result
      of applying all of them in order. */
  lemma InjectIntoAll(objs: seq<Obj>, deps: map<Key, ObjId>, container: ObjId, reqs: seq<Request>)
    requires container < |objs|
    requires Resolvable(deps, reqs)
    ensures InjectInto(objs, deps, container, reqs).1[container].attrs == Apply(objs[container].attrs, deps, reqs)
  {
    var cut := FirstMissing(reqs, deps);
    assert cut == |reqs|;
    assert reqs[..cut] == reqs;
  }

  /** What `_inject_dependencies` leaves in attribute `name` of the container:
      the instance registered under the key of the last request before the
      first miss that names it, or, when no such request names it, what the
      attribute held before (absent if it was absent). */
  lemma InjectIntoSets(objs: seq<Obj>, deps: map<Key, ObjId>, container: ObjId, reqs: seq<Request>, name: AttrName)
    requires container < |objs|
    ensures var a := InjectInto(objs, deps, container, reqs).1[container].attrs;
      var served := reqs[..FirstMissing(reqs, deps)];
      var j := LastAssignment(served, name);
      && (0 <= j ==> name in a && a[name] == deps[served[j].asked])
      && (j < 0 ==> (name in a <==> name in objs[container].attrs))
      && (j < 0 && name in objs[container].attrs ==> a[name] == objs[container].attrs[name])
  {
    ApplyLastWriterWins(objs[container].attrs, deps, reqs[..FirstMissing(reqs, deps)], name);
  }

  /** Every key may be looked up in both maps and names an existing object. */
  predicate Injectable(objs: seq<Obj>, deps: map<Key, ObjId>, allowed: map<Key, bool>, keys: seq<Key>)
  {
    forall k :: k in keys ==> k in deps && k in allowed && deps[k] < |objs|
  }

  /** The injection pass of `inject`: the registered keys in insertion order;
      an entry whose nested-injection flag is false is skipped, every other
      instance has its requests injected; the first failure ends the pass. */
  function InjectPass(objs: seq<Obj>, deps: map<Key, ObjId>, allowed: map<Key, bool>, requestsOf: Introspector, keys: seq<Key>): (r: (Outcome, seq<Obj>))
    requires Injectable(objs, deps, allowed, keys)
    ensures |r.1| == |objs|
    ensures forall o :: 0 <= o < |objs| ==> r.1[o].cls == objs[o].cls
    decreases |keys|
  {
    if keys == [] then (Ok, objs)
    else
      var k := keys[|keys| - 1];
      var prev := InjectPass(objs, deps, allowed, requestsOf, keys[..|keys| - 1]);
      if prev.0.Raised? || !allowed[k] then prev
      else InjectInto(prev.1, deps, deps[k], requestsOf(prev.1[deps[k]].cls))
  }

  /** Once injecting into an entry has raised, the later entries are never processed. */
  lemma {:induction false} InjectPassAbortIsFinal(objs: seq<Obj>, deps: map<Key, ObjId>, allowed: map<Key, bool>, requestsOf: Introspector, keys: seq<Key>, rest: seq<Key>)
    requires Injectable(objs, deps, allowed, keys + rest)
    requires InjectPass(objs, deps, allowed, requestsOf, keys).0.Raised?
    ensures InjectPass(objs, deps, allowed, requestsOf, keys + rest) == InjectPass(objs, deps, allowed, requestsOf, keys)
    decreases |rest|
  {
    if rest == [] {
      assert keys + rest == keys;
    } else {
      var init := rest[..|rest| - 1];
      assert (keys + rest)[..|keys + rest| - 1] == keys + init;
      InjectPassAbortIsFinal(objs, deps, allowed, requestsOf, keys, init);
    }
  }

  /** An injection that raised at entry `n` ends the pass with that outcome and state. */
  lemma InjectPassAbortAt(objs: seq<Obj>, deps: map<Key, ObjId>, allowed: map<Key, bool>, requestsOf: Introspector, keys: seq<Key>, n: nat)
    requires Injectable(objs, deps, allowed, keys)
    requires n < |keys|
    requires InjectPass(objs, deps, allowed, requestsOf, keys[..n + 1]).0.Raised?
    ensures InjectPass(objs, deps, allowed, requestsOf, keys) == InjectPass(objs, deps, allowed, requestsOf, keys[..n + 1])
  {
    assert keys == keys[..n + 1] + keys[n + 1..];
    InjectPassAbortIsFinal(objs, deps, allowed, requestsOf, keys[..n + 1], keys[n + 1..]);
  }

  /** The pass succeeds exactly when every request of every instance whose
      flag allows nested injection names a registered key, whatever the order
      of registration; otherwise it raises DependencyDoesNotRegistred. */
  lemma {:induction false} InjectPassOutcome(objs: seq<Obj>, deps: map<Key, ObjId>, allowed: map<Key, bool>, requestsOf: Introspector, keys: seq<Key>)
    requires Injectable(objs, deps, allowed, keys)
    ensures var o := InjectPass(objs, deps, allowed, requestsOf, keys).0;
      && (o == Ok <==> forall k :: k in keys && allowed[k] ==> Resolvable(deps, requestsOf(objs[deps[k]].cls)))
      && (o != Ok ==> o == Raised(DependencyDoesNotRegistred))
    decreases |keys|
  {
    if keys != [] {
      var init := keys[..|keys| - 1];
      var last := keys[|keys| - 1];
      assert keys == init + [last];
      assert forall k :: k in keys <==> k in init || k == last;
      InjectPassOutcome(objs, deps, allowed, requestsOf, init);
    }
  }

  /** An object that is not the instance of any entry allowed nested
      injection is left exactly as it was: in particular an entry whose flag
      is false never has an attribute set on its own account. */
  lemma {:induction false} InjectPassLeavesIneligible(objs: seq<Obj>, deps: map<Key, ObjId>, allowed: map<Key, bool>, requestsOf: Introspector, keys: seq<Key>, o: ObjId)
    requires Injectable(objs, deps, allowed, keys)
    requires o < |objs|
    requires forall k :: k in keys && allowed[k] ==> deps[k] != o
    ensures InjectPass(objs, deps, allowed, requestsOf, keys).1[o] == objs[o]
    decreases |keys|
  {
    if keys != [] {
      var init := keys[..|keys| - 1];
      assert keys == init + [keys[|keys| - 1]];
      InjectPassLeavesIneligible(objs, deps, allowed, requestsOf, init, o);
    }
  }

  /** After a successful pass over distinct keys, the instance of an entry
      allowed nested injection holds exactly the attributes its requests set,
      applied once in order to the attributes it had, provided no other
      entry allowed nested injection shares that instance. */
  lemma {:induction false} InjectPassWires(objs: seq<Obj>, deps: map<Key, ObjId>, allowed: map<Key, bool>, requestsOf: Introspector, keys: seq<Key>, k: Key)
    requires Injectable(objs, deps, allowed, keys)
    requires Distinct(keys)
    requires k in keys && allowed[k]
    requires forall other :: other in keys && other != k && allowed[other] ==> deps[other] != deps[k]
    requires InjectPass(objs, deps, allowed, requestsOf, keys).0 == Ok
    ensures Resolvable(deps, requestsOf(objs[deps[k]].cls))
    ensures InjectPass(objs, deps, allowed, requestsOf, keys).1[deps[k]].attrs
         == Apply(objs[deps[k]].attrs, deps, requestsOf(objs[deps[k]].cls))
    decreases |keys|
  {
    var n := |keys| - 1;
    var init := keys[..n];
    var last := keys[n];
    assert keys == init + [last];
    assert forall x :: x in init ==> x in keys;
    if last == k {
      assert forall i :: 0 <= i < n ==> init[i] != k;
      WiresAtLast(objs, deps, allowed, requestsOf, init, k);
    } else {
      assert forall i, j :: 0 <= i < j < |init| ==> init[i] == keys[i] && init[j] == keys[j];
      InjectPassWires(objs, deps, allowed, requestsOf, init, k);
      WiresKept(objs, deps, allowed, requestsOf, init, last, deps[k]);
    }
  }

  /** The inductive step of InjectPassWires when the entry is the last one processed. */
  lemma WiresAtLast(objs: seq<Obj>, deps: map<Key, ObjId>, allowed: map<Key, bool>, requestsOf: Introspector, init: seq<Key>, k: Key)
    requires Injectable(objs, deps, allowed, init + [k])
    requires allowed[k]
    requires forall other :: other in init && allowed[other] ==> deps[other] != deps[k]
    requires InjectPass(objs, deps, allowed, requestsOf, init + [k]).0 == Ok
    ensures Resolvable(deps, requestsOf(objs[deps[k]].cls))
    ensures InjectPass(objs, deps, allowed, requestsOf, init + [k]).1[deps[k]].attrs
         == Apply(objs[deps[k]].attrs, deps, requestsOf(objs[deps[k]].cls))
  {
    var keys := init + [k];
    assert keys[..|init|] == init;
    assert forall x :: x in init ==> x in keys;
    var o := deps[k];
    var prev := InjectPass(objs, deps, allowed, requestsOf, init);
    assert prev.0 == Ok;
    InjectPassLeavesIneligible(objs, deps, allowed, requestsOf, init, o);
    InjectIntoAll(prev.1, deps, o, requestsOf(prev.1[o].cls));
  }

  /** Processing one more entry, whose instance is another object, leaves object `o` as it was. */
  lemma WiresKept(objs: seq<Obj>, deps: map<Key, ObjId>, allowed: map<Key, bool>, requestsOf: Introspector, init: seq<Key>, last: Key, o: ObjId)
    requires Injectable(objs, deps, allowed, init + [last])
    requires o < |objs|
    requires allowed[last] ==> deps[last] != o
    requires InjectPass(objs, deps, allowed, requestsOf, init + [last]).0 == Ok
    ensures InjectPass(objs, deps, allowed, requestsOf, init + [last]).1[o]
         == InjectPass(objs, deps, allowed, requestsOf, init).1[o]
  {
    var keys := init + [last];
    assert keys[..|init|] == init;
    assert forall x :: x in init ==> x in keys;
  }
}
