# DependencyInjector, modelled in Dafny

This project models the registration-and-injection engine of archtool's
`DependencyInjector` (archtool/dependency_injector.py) and proves properties
of it.

The injector keeps two dictionaries. The registry maps a serialized
dependency key to an instance. The nested-injection flag map holds one
boolean per serialized key. `inject` runs two passes:

1. **Registration.** For each layer that passes the `Layer` check, and for
   each of that layer's component patterns, the injector keeps the
   application modules that do not ignore the pattern. It scans them, creates
   one instance per discovered (key, class) pair and registers it.
2. **Injection.** It walks the registry in insertion order. Entries whose
   flag is false are skipped. Every other instance gets its requested
   attributes set from the registry.

How the model is laid out:

- `types.dfy` (module `Types`) holds the values: keys, patterns, modules,
  layers, requests, objects, the two errors, and the registry as a value
  (`World`). It also holds the registry invariant `WellFormed`: keys are
  unique, they are listed once in insertion order, every key has a flag, and
  every instance exists.
- `objects.dfy` (module `Objects`) holds the object store, class `Heap`.
  `dep_class()` becomes `Heap.New`, which returns a fresh id. `setattr`
  becomes `Heap.SetAttr`.
- `discovery.dfy` (module `Discovery`) has the specification functions for
  the module filter and for what the scans discover.
- `registry.dfy` (module `Registry`) describes one `_reg_dependency` step and
  the whole registration pass as functions on `World`.
- `injection.dfy` (module `Injection`) describes `_inject_dependencies` and
  the injection pass as functions on `World`.
- `injector.dfy` (module `DependencyInjector`) holds class `Injector`. Its
  fields `dependencies`, `allowedToNestedInjection` and `order` are updated
  in place. `order` is the dictionary's insertion order. Each method is
  proved equal to the specification function above it.

`inject` is written as `Inject` calling `RegistrationPass` and then
`InjectionPass`. Each nesting level of the registration loops is its own
method: `RegisterLayer` (the pattern loop), `RegisterComponentGroupDeps`
(the loop over one scan's pairs) and `RegisterDiscovered` (its body).
Together they run the same steps in the same order as the source.

The model keeps two behaviours of the source as written:

- `_reg_dependency` writes the nested-injection flag before the duplicate
  check. A rejected duplicate therefore still overwrites the flag of the
  first registration (`RegStep`, `RegDependency`).
- `_inject_dependencies` looks up `dep.asked` as given, without
  serializing it. Only `get_dependency` serializes its key
  (`InjectDependencies`, `GetDependency`).

Collaborators whose code is not part of this model become parameters of the
constructor:

- `serialize_dep_key` becomes `serialize`.
- `get_all_interfaces_and_realizations` becomes `scan`.
- `get_dependencies` becomes `requestsOf`.
- Layer construction becomes `newLayer`, and `default_layers` becomes
  `defaultLayers`.

## Model

| member | source | states |
|---|---|---|
| DependencyInjector.Injector.constructor | archtool/dependency_injector.py:37-53 | The given layer classes, or the default ones when none are given, are instantiated in order. The registry and the flag map start empty, and the registry invariant holds. |
| DependencyInjector.Injector.ExcludeIgnoredModules | archtool/dependency_injector.py:89-94 | The result is Unignored of the module list. A module is in it exactly when it is in the module list and does not ignore the pattern. |
| Discovery.UnignoredMembers | archtool/dependency_injector.py:89-94 | A module is kept exactly when it is one of the modules and its ignore set does not contain the pattern. |
| Discovery.KeptIndices | archtool/dependency_injector.py:89-94 | The kept modules are the module list at strictly increasing positions, so the result is an order-preserving subsequence. |
| Discovery.KeptIndicesExact | archtool/dependency_injector.py:92-93 | A position is kept exactly when its module does not ignore the pattern. |
| Discovery.LayersItemsMembers | archtool/dependency_injector.py:60-70 | A pair is discovered exactly when the scan of some pattern of some layer that passes the Layer check returns it. Layers that fail the check contribute nothing. |
| Registry.RegStep | archtool/dependency_injector.py:132-137 | The flag is set to the given value on both paths. The step succeeds exactly when the key is new. A duplicate raises DependencyDuplicate and leaves the registry and the order unchanged. A new key is bound to the value, no other entry changes, and the key goes last in insertion order. The registry invariant is preserved. |
| DependencyInjector.Injector.RegDependency | archtool/dependency_injector.py:114-137 | Equal to RegStep on the serialized key, or on the raw key when serialization is off. The flag is written even for a duplicate, the duplicate path changes no entry, and after a success the lookup returns the value. |
| Registry.RegisterItem | archtool/dependency_injector.py:73-77 | Creating a fresh instance and registering it preserves the registry invariant. |
| Registry.RegisterItems | archtool/dependency_injector.py:60-77 | Registering the pairs in order, stopping at the first that raises, preserves the registry invariant. |
| Registry.RegisterItemsAbortIsFinal | archtool/dependency_injector.py:73-77 | Once a registration has raised, no later pair is processed. |
| Registry.RegisterItemsSuccess | archtool/dependency_injector.py:60-77 | When the serialized keys are new and pairwise distinct, the pass succeeds. The keys are appended to the insertion order, and each is bound, in order, to a new instance of its class with no attributes and with nested injection allowed. Earlier entries and objects are unchanged. |
| Registry.RegisterItemsKeepsEntries | archtool/dependency_injector.py:133-137 | Whatever the outcome, the pass never rebinds or removes an earlier entry. A colliding key leaves the first registration's instance in place. |
| Registry.RegisterItemsKeepsFlags | archtool/dependency_injector.py:132-137 | When the serialized keys are new and pairwise distinct, every earlier entry keeps its nested-injection flag. |
| Registry.RegisteredIdUnshared | archtool/dependency_injector.py:73-77 | After a successful pass, the instance created for a discovered pair is bound to its own key and to no other. |
| Registry.RegisterItemsDuplicate | archtool/dependency_injector.py:133-136 | When two discovered keys serialize alike, or one is already registered, the pass raises DependencyDuplicate. |
| Registry.RegisterItemsOutcome | archtool/dependency_injector.py:60-77 | The registration pass succeeds exactly when the serialized keys are new and pairwise distinct. Otherwise it raises DependencyDuplicate. |
| DependencyInjector.Injector.RegistrationPass | archtool/dependency_injector.py:60-77 | The three nested loops leave the outcome and the state that RegisterItems gives on everything the layers discover. The registry invariant is preserved. |
| DependencyInjector.Injector.RegisterLayer | archtool/dependency_injector.py:62-77 | The pattern loop of one layer registers what its patterns discover, pattern after pattern, as RegisterItems does. |
| DependencyInjector.Injector.RegisterComponentGroupDeps | archtool/dependency_injector.py:73-77 | The loop over one scan's pairs registers them in order and stops at the first that raises, as RegisterItems does. |
| DependencyInjector.Injector.RegisterDiscovered | archtool/dependency_injector.py:75-77 | Creating the instance and registering it under its key is one RegisterItem step. |
| DependencyInjector.Injector.GetDependencyInternal | archtool/dependency_injector.py:139-150 | The lookup finds an instance exactly when the key, as given, is registered, and returns that instance. A miss raises DependencyDoesNotRegistred. |
| DependencyInjector.Injector.GetDependency | archtool/dependency_injector.py:152-155 | The lookup of the serialized key. It finds an instance exactly when the serialized key is registered. |
| Injection.FirstMissing | archtool/dependency_injector.py:104-112 | Every request before the cut names a registered key, and the request at the cut does not. |
| Injection.ApplyLastWriterWins | archtool/dependency_injector.py:104-108 | After the assignments, each attribute holds the instance of the last request that names it. An attribute no request names keeps its value or stays absent. |
| Injection.InjectInto | archtool/dependency_injector.py:96-112 | Injection succeeds exactly when every request names a registered key. Otherwise it raises DependencyDoesNotRegistred. Only the container changes, and no object changes class. What it does to the attributes is stated by InjectIntoSets and InjectIntoAll. |
| Injection.InjectIntoSets | archtool/dependency_injector.py:104-112 | For any attribute, the container afterwards holds the instance registered under the key of the last request before the first miss that names it. When no such request names it, it keeps its old value, or stays absent. |
| Injection.InjectIntoAll | archtool/dependency_injector.py:104-108 | When every request names a registered key, the container's attributes are its old ones with all requests applied in order. |
| DependencyInjector.Injector.InjectDependencies | archtool/dependency_injector.py:96-112 | The loop over the requests, looking up the unserialized `asked` key, leaves the outcome and the objects that InjectInto gives. |
| Injection.InjectPass | archtool/dependency_injector.py:82-86 | The injection pass keeps the number of objects and every object's class. What it does to the attributes is stated by InjectPassWires and InjectPassLeavesIneligible. |
| Injection.InjectPassAbortIsFinal | archtool/dependency_injector.py:82-86 | Once injecting into an entry has raised, no later entry is processed. |
| Injection.InjectPassOutcome | archtool/dependency_injector.py:82-86 | The pass succeeds exactly when every request of every entry whose flag allows nested injection names a registered key. Otherwise it raises DependencyDoesNotRegistred. |
| Injection.InjectPassLeavesIneligible | archtool/dependency_injector.py:83-85 | An object that is not the instance of any entry with a true flag is left exactly as it was. |
| Injection.InjectPassWires | archtool/dependency_injector.py:82-86 | After a successful pass, the instance of an entry with a true flag, when no other such entry shares it, holds its old attributes with all its class's requests applied in order, and every one of those requests names a registered key. |
| DependencyInjector.Injector.InjectionPass | archtool/dependency_injector.py:82-86 | The loop over the registry in insertion order leaves the outcome and the objects that InjectPass gives. The flag lookup cannot miss. |
| DependencyInjector.InjectSpec | archtool/dependency_injector.py:55-87 | The registration pass followed, unless it raised, by the injection pass preserves the registry invariant. |
| DependencyInjector.InjectOutcome | archtool/dependency_injector.py:55-87 | `inject` raises DependencyDuplicate exactly when the discovered keys are not new and pairwise distinct. Otherwise every discovered key is registered. `inject` then succeeds exactly when every request of every entry with a true flag names a registered key, and it raises DependencyDoesNotRegistred otherwise. |
| DependencyInjector.InjectWires | archtool/dependency_injector.py:55-87 | After `inject` succeeds, the instance created for each discovered pair is registered under its serialized key and is of the discovered class. Each attribute that its class's requests name holds the instance registered under the key of the last request naming it, and it has no other attribute. |
| DependencyInjector.WiredAfterPass | archtool/dependency_injector.py:82-86 | A successful injection pass gives a new, unshared instance with no attributes and a true flag exactly the attributes its class's requests set, with the last request for a name winning. |
| DependencyInjector.Injector.Inject | archtool/dependency_injector.py:55-87 | Running `inject` leaves the outcome and the state that InjectSpec gives, and the registry invariant holds afterwards. |
| Objects.Heap.New | archtool/dependency_injector.py:75 | `dep_class()` creates a new object of the class with no attributes, under a fresh id, and no other object changes. |
| Objects.Heap.SetAttr | archtool/dependency_injector.py:108 | `setattr` changes one attribute of one object, and nothing else changes. |

## Left out

- Logging configuration and log calls (lines 27-30, 56-58, 80-81, 87): they only produce output.
- Exception message texts and the `serialized_deps` join: only the kind of error raised is modelled (`Outcome`, `Result`).
- The bodies of `serialize_dep_key`, `get_all_interfaces_and_realizations`, `get_dependencies`, `default_layers`, `Layer` and `ComponentPattern`: that code is not part of this model, so they are parameters.
- `issubclass(type(layer), Layer)` is modelled as the `isLayer` bit of a `Layer` value, and reflection in general as the `Heap` object store.
- `layers=None` and `layers=[]` are both falsy in the source. The model has one case, the empty sequence, which selects the default layers.
- `scan` returns a dictionary in the source, so its keys are distinct. The model takes any sequence of (key, class) pairs, which is more general. Its iteration order is the dictionary's order.
- Requests: `get_dependencies(container)` is modelled as a function of the container's class, so the model assumes that instances of one class request the same dependencies.
- Objects created by `dep_class()` start with no attributes. Attributes that a dependency's own constructor sets are not modelled, and neither are exceptions raised by that constructor.
- `component_pattern not in module.ignore` uses Python equality. It is modelled as structural equality of `Pattern` values in a set.
- The `except KeyError` in `_inject_dependencies` either re-raises DependencyDoesNotRegistred or lets the one from `_get_dependency` through, depending on whether that exception subclasses `KeyError`. Either way a miss raises DependencyDoesNotRegistred, which is what the model states. The exceptions module is not part of this model.
- Injection.InjectPassWires: requires that no other entry with a true flag shares the instance. Registration creates a new instance per key, so this always holds after `inject`'s registration pass (DependencyInjector.InjectWires), but an instance registered twice by hand is injected twice and is not described.
- Registry.RegisterItemsKeepsFlags: requires new and distinct keys, because the source writes the flag before the duplicate check (line 132). A pass that stops on a duplicate overwrites the flag of the colliding key, as RegStep states.
- Objects.Heap.SetAttr: attribute values are object ids, because the injector only ever assigns registered instances.
- DependencyInjector.Injector.RegDependency: requires `value` to be an existing object id. The source accepts any object, and every caller passes a fresh instance.
- injector/interfaces/di_layer.py is not part of this model: it only stores two fields.
