/** `DependencyInjector`: it owns the registry (instances by serialized key, in
    insertion order, and the nested-injection flags), registers one instance
    per discovered dependency key, layer by layer and pattern by pattern, and
    then injects registered instances into the attributes their owners request. */
module DependencyInjector {
  import opened Types
  import opened Objects
  import opened Discovery
  import opened Registry
  import opened Injection

  /** What `inject` does, from registry and object store `w`: the registration
      pass over everything the scans discover, and, unless it raised, the
      injection pass over the registry in insertion order. */
  function InjectSpec(w: World, serialize: Key -> Key, scan: Scanner, requestsOf: Introspector,
                      modules: seq<Module>, layers: seq<Layer>): (r: (Outcome, World))
    requires WellFormed(w)
    ensures WellFormed(r.1)
  {
    var reg := RegisterItems(w, serialize, LayersItems(modules, scan, layers));
    if reg.0.Raised? then reg
    else
      var inj := InjectPass(reg.1.objs, reg.1.deps, reg.1.allowed, requestsOf, reg.1.order);
      (inj.0, reg.1.(objs := inj.1))
  }

  /** `inject` raises DependencyDuplicate exactly when two discovered keys
      serialize alike or one is already registered. Otherwise every discovered
      key is registered, and `inject` succeeds exactly when every request of
      every registered instance allowed nested injection names a registered
      key, and raises DependencyDoesNotRegistred when one does not. */
  lemma InjectOutcome(w: World, serialize: Key -> Key, scan: Scanner, requestsOf: Introspector,
                      modules: seq<Module>, layers: seq<Layer>)
    requires WellFormed(w)
    ensures var items := LayersItems(modules, scan, layers);
      var r := InjectSpec(w, serialize, scan, requestsOf, modules, layers);
      && (r.0 == Raised(DependencyDuplicate) <==> !AllFresh(w.deps, SerializedKeys(serialize, items)))
      && (r.0 != Raised(DependencyDuplicate) ==>
            && (forall i :: 0 <= i < |items| ==> serialize(items[i].0) in r.1.deps)
            && (r.0 == Ok <==> forall k :: k in r.1.deps && r.1.allowed[k] ==> Resolvable(r.1.deps, requestsOf(r.1.objs[r.1.deps[k]].cls)))
            && (r.0 != Ok ==> r.0 == Raised(DependencyDoesNotRegistred)))
  {
    var items := LayersItems(modules, scan, layers);
    RegisterItemsOutcome(w, serialize, items);
    var reg := RegisterItems(w, serialize, items);
    if reg.0 == Ok {
      RegisterItemsSuccess(w, serialize, items);
      InjectPassOutcome(reg.1.objs, reg.1.deps, reg.1.allowed, requestsOf, reg.1.order);
    }
  }

  /** After `inject` succeeds, the instance created for the `i`-th discovered
      pair is registered under its serialized key, is of the discovered class,
      and each of its attributes holds the instance registered under the key
      of the last request naming it; it has no other attribute. */
  lemma InjectWires(w: World, serialize: Key -> Key, scan: Scanner, requestsOf: Introspector,
                    modules: seq<Module>, layers: seq<Layer>, i: nat, name: AttrName)
    requires WellFormed(w)
    requires InjectSpec(w, serialize, scan, requestsOf, modules, layers).0 == Ok
    requires i < |LayersItems(modules, scan, layers)|
    ensures var r := InjectSpec(w, serialize, scan, requestsOf, modules, layers).1;
      var item := LayersItems(modules, scan, layers)[i];
      Wired(r.deps, r.objs, requestsOf, serialize(item.0), item.1, name)
  {
    var items := LayersItems(modules, scan, layers);
    var reg := RegisterItems(w, serialize, items);
    assert reg.0 == Ok;
    RegisterItemsOutcome(w, serialize, items);
    RegisterItemsSuccess(w, serialize, items);
    WiredAfterRegistration(w, serialize, requestsOf, items, reg.1, i, name);
  }

  /** The injection pass after a successful registration wires the instance
      created for the `i`-th pair as its class's requests say. */
  lemma WiredAfterRegistration(w: World, serialize: Key -> Key, requestsOf: Introspector,
                               items: seq<(Key, ClassName)>, reg: World, i: nat, name: AttrName)
    requires WellFormed(w) && WellFormed(reg)
    requires Registered(w, serialize, items, reg)
    requires i < |items|
    requires InjectPass(reg.objs, reg.deps, reg.allowed, requestsOf, reg.order).0 == Ok
    ensures Wired(reg.deps, InjectPass(reg.objs, reg.deps, reg.allowed, requestsOf, reg.order).1,
                  requestsOf, serialize(items[i].0), items[i].1, name)
  {
    RegisteredAt(w, serialize, items, reg, i);
    RegisteredIdUnshared(w, serialize, items, reg, i);
    WiredAfterPass(reg.objs, reg.deps, reg.allowed, requestsOf, reg.order,
                   serialize(items[i].0), |w.objs| + i, items[i].1, name);
  }

  /** The instance registered under `sk` is of class `cls` and holds, in
      each attribute, the instance registered under the key of the last
      request naming that attribute; it has no other attribute. */
  ghost predicate Wired(deps: map<Key, ObjId>, objs: seq<Obj>, requestsOf: Introspector, sk: Key, cls: ClassName, name: AttrName)
  {
    var reqs := requestsOf(cls);
    && sk in deps && deps[sk] < |objs|
    && objs[deps[sk]].cls == cls
    && Resolvable(deps, reqs)
    && var a := objs[deps[sk]].attrs;
       var j := LastAssignment(reqs, name);
       && (0 <= j ==> name in a && a[name] == deps[reqs[j].asked])
       && (j < 0 ==> name !in a)
  }

  /** A successful injection pass wires a fresh, unshared instance of an
      entry allowed nested injection as its class's requests say. */
  lemma WiredAfterPass(objs: seq<Obj>, deps: map<Key, ObjId>, allowed: map<Key, bool>, requestsOf: Introspector,
                       keys: seq<Key>, sk: Key, o: ObjId, cls: ClassName, name: AttrName)
    requires Injectable(objs, deps, allowed, keys) && Distinct(keys)
    requires sk in keys && allowed[sk] && FreshEntry(deps, objs, sk, o, cls)
    requires forall other :: other in deps && other != sk ==> deps[other] != o
    requires InjectPass(objs, deps, allowed, requestsOf, keys).0 == Ok
    ensures Wired(deps, InjectPass(objs, deps, allowed, requestsOf, keys).1, requestsOf, sk, cls, name)
  {
    var reqs := requestsOf(cls);
    var after := InjectPass(objs, deps, allowed, requestsOf, keys).1;
    InjectPassWires(objs, deps, allowed, requestsOf, keys, sk);
    assert after[o].cls == cls;
    ApplyLastWriterWins(map[], deps, reqs, name);
  }

  class Injector {
    const modulesList: seq<Module>
    /** The instantiated layers, in declared order. */
    const layers: seq<Layer>
    /** The keys of `dependencies` in insertion order. */
    var order: seq<Key>
    var dependencies: map<Key, ObjId>
    var allowedToNestedInjection: map<Key, bool>
    /** The collaborators: `serialize_dep_key`, `get_all_interfaces_and_realizations`
        and `get_dependencies`. */
    const serialize: Key -> Key
    const scan: Scanner
    const requestsOf: Introspector
    /** The objects that instances are created in and attributes are set on. */
    const heap: Heap

    ghost function State(): World
      reads this, heap
    {
      World(order, dependencies, allowedToNestedInjection, heap.objs)
    }

    ghost predicate Valid()
      reads this, heap
    {
      WellFormed(State())
    }

    /** `__init__`: the given layer classes, or the default ones when none are
        given, are instantiated in order with their constructor `newLayer`;
        the registry starts empty. */
    constructor (modulesList: seq<Module>, layerClasses: seq<LayerClass>, defaultLayers: seq<LayerClass>,
                 newLayer: LayerClass -> Layer, serialize: Key -> Key, scan: Scanner,
                 requestsOf: Introspector, heap: Heap)
      ensures this.modulesList == modulesList && this.heap == heap
      ensures this.serialize == serialize && this.scan == scan && this.requestsOf == requestsOf
      ensures var chosen := if layerClasses != [] then layerClasses else defaultLayers;
        |layers| == |chosen| && forall i :: 0 <= i < |chosen| ==> layers[i] == newLayer(chosen[i])
      ensures order == [] && dependencies == map[] && allowedToNestedInjection == map[]
      ensures Valid()
    {
      var chosen := if layerClasses != [] then layerClasses else defaultLayers;
      var initialized: seq<Layer> := [];
      for i := 0 to |chosen|
        invariant |initialized| == i
        invariant forall j :: 0 <= j < i ==> initialized[j] == newLayer(chosen[j])
      {
        initialized := initialized + [newLayer(chosen[i])];
      }
      this.modulesList := modulesList;
      this.dependencies := map[];
      this.layers := initialized;
      this.allowedToNestedInjection := map[];
      this.order := [];
      this.serialize := serialize;
      this.scan := scan;
      this.requestsOf := requestsOf;
      this.heap := heap;
    }

    /** `_exclude_ignored_modules`: the modules that do not ignore the pattern, in order. */
    method ExcludeIgnoredModules(componentPattern: Pattern) returns (filteredModules: seq<Module>)
      ensures filteredModules == Unignored(modulesList, componentPattern)
      ensures forall m :: m in filteredModules <==> m in modulesList && componentPattern !in m.ignore
    {
      filteredModules := [];
      for i := 0 to |modulesList|
        invariant filteredModules == Unignored(modulesList[..i], componentPattern)
      {
        var m := modulesList[i];
        assert modulesList[..i + 1][..i] == modulesList[..i];
        if componentPattern !in m.ignore {
          filteredModules := filteredModules + [m];
        }
      }
      assert modulesList[..|modulesList|] == modulesList;
      forall m ensures m in filteredModules <==> m in modulesList && componentPattern !in m.ignore {
        UnignoredMembers(modulesList, componentPattern, m);
      }
    }

    /** `_get_dependency`: the instance registered under the key as given. */
    function GetDependencyInternal(key: Key): (r: Result<ObjId>)
      reads this
      ensures r.Found? <==> key in dependencies
      ensures r.Found? ==> r.value == dependencies[key]
      ensures r.NotFound? ==> r.error == DependencyDoesNotRegistred
    {
      if key in dependencies then Found(dependencies[key]) else NotFound(DependencyDoesNotRegistred)
    }

    /** `get_dependency`: the instance registered under the serialized key. */
    function GetDependency(key: Key): (r: Result<ObjId>)
      reads this
      ensures r == GetDependencyInternal(serialize(key))
      ensures r.Found? <==> serialize(key) in dependencies
    {
      GetDependencyInternal(serialize(key))
    }

    /** `_reg_dependency`. The flag is recorded before the duplicate check, so
        a rejected duplicate still overwrites the flag of the first entry. */
    method RegDependency(key: Key, value: ObjId, nestedInjectionsAllowed: bool := true,
                         useSerializationFunction: bool := true) returns (outcome: Outcome)
      requires Valid()
      requires value < |heap.objs|
      modifies this
      ensures Valid()
      ensures var sk := if useSerializationFunction then serialize(key) else key;
        (outcome, State()) == RegStep(old(State()), sk, value, nestedInjectionsAllowed)
      ensures var sk := if useSerializationFunction then serialize(key) else key;
        && allowedToNestedInjection == old(allowedToNestedInjection)[sk := nestedInjectionsAllowed]
        && (sk in old(dependencies) ==>
              outcome == Raised(DependencyDuplicate) && dependencies == old(dependencies) && order == old(order))
        && (sk !in old(dependencies) ==>
              && outcome == Ok && dependencies == old(dependencies)[sk := value] && order == old(order) + [sk]
              && GetDependencyInternal(sk) == Found(value))
    {
      var serializedKey := if useSerializationFunction then serialize(key) else key;
      allowedToNestedInjection := allowedToNestedInjection[serializedKey := nestedInjectionsAllowed];
      if serializedKey in dependencies {
        return Raised(DependencyDuplicate);
      }
      dependencies := dependencies[serializedKey := value];
      order := order + [serializedKey];
      return Ok;
    }

    /** `_inject_dependencies(container)`, proved against InjectInto. The
        requested key is looked up as given, without serialization. */
    method InjectDependencies(container: ObjId) returns (outcome: Outcome)
      requires container < |heap.objs|
      modifies heap
      ensures (outcome, heap.objs)
           == InjectInto(old(heap.objs), dependencies, container, requestsOf(old(heap.objs)[container].cls))
    {
      ghost var objs0 := heap.objs;
      var requests := requestsOf(heap.objs[container].cls);
      for i := 0 to |requests|
        invariant Resolvable(dependencies, requests[..i])
        invariant heap.objs == objs0[container := objs0[container].(attrs := Apply(objs0[container].attrs, dependencies, requests[..i]))]
      {
        var dep := requests[i];
        var found := GetDependencyInternal(dep.asked);
        if found.NotFound? {
          assert FirstMissing(requests, dependencies) == i;
          return Raised(DependencyDoesNotRegistred);
        }
        assert requests[..i + 1][..i] == requests[..i];
        heap.SetAttr(container, dep.name, found.value);
      }
      assert requests[..|requests|] == requests;
      return Ok;
    }

    /** `inject`: the registration pass, then, unless it raised, the
        injection pass; proved against InjectSpec. */
    method Inject() returns (outcome: Outcome)
      requires Valid()
      modifies this, heap
      ensures Valid()
      ensures (outcome, State()) == InjectSpec(old(State()), serialize, scan, requestsOf, modulesList, layers)
    {
      outcome := RegistrationPass();
      if outcome.Ok? {
        outcome := InjectionPass();
      }
    }

    /** The first loop of `inject`: for each layer that passes the Layer check,
        for each of its patterns, every pair the scan of the modules that do
        not ignore the pattern returns is instantiated and registered. */
    method RegistrationPass() returns (outcome: Outcome)
      requires Valid()
      modifies this, heap
      ensures Valid()
      ensures (outcome, State()) == RegisterItems(old(State()), serialize, LayersItems(modulesList, scan, layers))
    {
      ghost var w0 := State();
      for i := 0 to |layers|
        invariant RegisterItems(w0, serialize, LayersItems(modulesList, scan, layers[..i])) == (Ok, State())
      {
        var layer := layers[i];
        ghost var before := LayersItems(modulesList, scan, layers[..i]);
        LayersItemsStepAt(modulesList, scan, layers, i);
        if layer.isLayer {
          outcome := RegisterLayer(layer.componentGroups, w0, before);
          if outcome.Raised? {
            LayersItemsSplit(modulesList, scan, layers, i + 1);
            RegisterItemsAbortIsFinal(w0, serialize, LayersItems(modulesList, scan, layers[..i + 1]), LayersItems(modulesList, scan, layers[i + 1..]));
            return;
          }
        } else {
          assert before + LayerItems(modulesList, scan, layer) == before;
        }
      }
      assert layers[..|layers|] == layers;
      outcome := Ok;
    }

    /** The middle loop of the registration pass: the pairs of each pattern of
        one layer, pattern after pattern, until a registration raises. */
    method RegisterLayer(groups: seq<Pattern>, ghost w0: World, ghost before: seq<(Key, ClassName)>) returns (outcome: Outcome)
      requires WellFormed(w0)
      requires RegisterItems(w0, serialize, before) == (Ok, State())
      modifies this, heap
      ensures (outcome, State()) == RegisterItems(w0, serialize, before + GroupsItems(modulesList, scan, groups))
    {
      assert before + GroupsItems(modulesList, scan, groups[..0]) == before;
      for j := 0 to |groups|
        invariant RegisterItems(w0, serialize, before + GroupsItems(modulesList, scan, groups[..j])) == (Ok, State())
      {
        var componentPattern := groups[j];
        var modulesToInteract := ExcludeIgnoredModules(componentPattern);
        var componentGroupDeps := scan(modulesToInteract, componentPattern.moduleNameRegex, componentPattern.superclass);
        GroupsItemsStepAt(modulesList, scan, before, groups, j);
        outcome := RegisterComponentGroupDeps(componentGroupDeps, w0, before + GroupsItems(modulesList, scan, groups[..j]));
        if outcome.Raised? {
          GroupsItemsSplit(modulesList, scan, before, groups, j + 1);
          RegisterItemsAbortIsFinal(w0, serialize, before + GroupsItems(modulesList, scan, groups[..j + 1]), GroupsItems(modulesList, scan, groups[j + 1..]));
          return;
        }
      }
      assert groups[..|groups|] == groups;
      outcome := Ok;
    }

    /** The innermost loop of the registration pass: each (key, class) pair one
        scan returned is instantiated with `dep_class()` and registered with
        nested injection allowed, until a registration raises. `before` is what
        the pass registered earlier, starting from `w0`. */
    method RegisterComponentGroupDeps(componentGroupDeps: seq<(Key, ClassName)>, ghost w0: World,
                                      ghost before: seq<(Key, ClassName)>) returns (outcome: Outcome)
      requires WellFormed(w0)
      requires RegisterItems(w0, serialize, before) == (Ok, State())
      modifies this, heap
      ensures (outcome, State()) == RegisterItems(w0, serialize, before + componentGroupDeps)
    {
      assert before + componentGroupDeps[..0] == before;
      for k := 0 to |componentGroupDeps|
        invariant RegisterItems(w0, serialize, before + componentGroupDeps[..k]) == (Ok, State())
      {
        var (depKey, depClass) := componentGroupDeps[k];
        RegisterItemsStepAt(w0, serialize, before, componentGroupDeps, k);
        outcome := RegisterDiscovered(depKey, depClass);
        if outcome.Raised? {
          RegisterItemsAbortAt(w0, serialize, before, componentGroupDeps, k);
          return;
        }
      }
      assert componentGroupDeps[..|componentGroupDeps|] == componentGroupDeps;
      outcome := Ok;
    }

    /** The body of the innermost loop: `dep_class()` creates the instance,
        which `_reg_dependency(key=dep_key, value=dep_instance)` registers. */
    method RegisterDiscovered(depKey: Key, depClass: ClassName) returns (outcome: Outcome)
      requires Valid()
      modifies this, heap
      ensures (outcome, State()) == RegisterItem(old(State()), serialize, (depKey, depClass))
    {
      ghost var prev := State();
      var depInstance := heap.New(depClass);
      assert State() == prev.(objs := prev.objs + [Obj(depClass, map[])]);
      outcome := RegDependency(key := depKey, value := depInstance);
    }

    /** The second loop of `inject`: the registry in insertion order, skipping
        the entries whose flag forbids nested injection. The flag lookup
        cannot miss, because every registered key has a flag. */
    method InjectionPass() returns (outcome: Outcome)
      requires Valid()
      modifies heap
      ensures Valid()
      ensures (outcome, heap.objs)
           == InjectPass(old(heap.objs), dependencies, allowedToNestedInjection, requestsOf, order)
    {
      ghost var objs0 := heap.objs;
      for n := 0 to |order|
        invariant Valid()
        invariant InjectPass(objs0, dependencies, allowedToNestedInjection, requestsOf, order[..n]) == (Ok, heap.objs)
      {
        var depInterface := order[n];
        assert order[..n + 1][..n] == order[..n];
        var isAllowedToNestedInjection := allowedToNestedInjection[depInterface];
        if isAllowedToNestedInjection {
          outcome := InjectDependencies(dependencies[depInterface]);
          if outcome.Raised? {
            InjectPassAbortAt(objs0, dependencies, allowedToNestedInjection, requestsOf, order, n);
            return;
          }
        }
      }
      assert order[..|order|] == order;
      outcome := Ok;
    }
  }
}
