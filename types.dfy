/** The values the injector works on: dependency keys, component patterns,
    application modules, layers, dependency requests, the objects it creates,
    the two errors it raises, and the registry as a value. */
module Types {

  /** A dependency key. The registry is keyed by the serialized form of a key,
      which is itself a key (`_reg_dependency` may also store a raw key). */
  type Key = string
  type ClassName = string
  type AttrName = string
  /** A layer class as listed by the application, before it is instantiated. */
  type LayerClass = string
  /** An object, named by its position in the object store. */
  type ObjId = nat

  /** A component pattern: the superclass a component must extend and the
      regular expression its module name must match. */
  datatype Pattern = Pattern(superclass: ClassName, moduleNameRegex: string)

  /** An application module and the component patterns it opts out of. */
  datatype Module = Module(name: string, ignore: set<Pattern>)

  /** An instantiated layer: whether its type passes the `issubclass(..., Layer)`
      check, and its component patterns in declared order. */
  datatype Layer = Layer(isLayer: bool, componentGroups: seq<Pattern>)

  /** A dependency request of a component: set attribute `name` to the
      instance registered under `asked`. */
  datatype Request = Request(name: AttrName, asked: Key)

  /** An object: the class it was created from and its attributes. */
  datatype Obj = Obj(cls: ClassName, attrs: map<AttrName, ObjId>)

  /** The two exceptions the injector raises. */
  datatype Error = DependencyDuplicate | DependencyDoesNotRegistred

  /** How a call that returns nothing ends: normally or by raising. */
  datatype Outcome = Ok | Raised(error: Error)

  /** How a lookup ends: with the instance or by raising. */
  datatype Result<T> = Found(value: T) | NotFound(error: Error)

  /** The injector's registry together with the object store:
      `order` lists the keys of `deps` in insertion order (a Python dict's
      iteration order), `allowed` is the nested-injection flag map. */
  datatype World = World(order: seq<Key>, deps: map<Key, ObjId>, allowed: map<Key, bool>, objs: seq<Obj>)

  predicate Distinct(ks: seq<Key>)
  {
    forall i, j :: 0 <= i < j < |ks| ==> ks[i] != ks[j]
  }

  /** The registry invariant: keys are unique and listed once in insertion
      order, every registered key has a nested-injection flag, and every
      registered instance is an existing object. */
  predicate WellFormed(w: World)
  {
    && Distinct(w.order)
    && (forall k :: k in w.deps ==> k in w.order)
    && (forall k :: k in w.order ==> k in w.deps)
    && (forall k :: k in w.deps ==> k in w.allowed && w.deps[k] < |w.objs|)
  }

  /** `sk` is registered to the object `o`, a new instance of `cls` with no
      attributes yet. */
  predicate FreshEntry(deps: map<Key, ObjId>, objs: seq<Obj>, sk: Key, o: ObjId, cls: ClassName)
  {
    && sk in deps && deps[sk] == o
    && o < |objs| && objs[o].cls == cls && objs[o].attrs == map[]
  }
}
