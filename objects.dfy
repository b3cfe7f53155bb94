/** The object store that Python's reflection acts on: creating an instance
    of a class with no arguments, and setting an attribute by name. */
module Objects {
  import opened Types

  class Heap {
    var objs: seq<Obj>

    constructor (initial: seq<Obj>)
      ensures objs == initial
    {
      objs := initial;
    }

    /** `dep_class()`: a fresh object of class `cls` whose constructor sets no attribute. */
    method New(cls: ClassName) returns (id: ObjId)
      modifies this
      ensures id == |old(objs)|
      ensures objs == old(objs) + [Obj(cls, map[])]
    {
      id := |objs|;
      objs := objs + [Obj(cls, map[])];
    }

    /** `setattr(obj, name, value)`: only attribute `name` of object `id` changes. */
    method SetAttr(id: ObjId, name: AttrName, value: ObjId)
      requires id < |objs|
      modifies this
      ensures objs == old(objs)[id := old(objs)[id].(attrs := old(objs)[id].attrs[name := value])]
    {
      objs := objs[id := objs[id].(attrs := objs[id].attrs[name := value])];
    }
  }
}
