/** `NamedVector`, which owns a `Name*`. The source declares only the
    default constructor and the constructor that copies the given Name with
    Name::copy; it leaves the copy and move constructors, both assignments
    and the destructor to be written, and its tests say what they must do:
    a copy gets its own Name with the same payload, an assignment releases
    the Name it held, a move leaves the source without the Name, and once
    every vector and Name is gone the counter is back at 0. Those members
    are modelled here as the tests require them. */
module NamedVectors {
  import opened Names

  class NamedVector {
    var name: Name?
    var x: real
    var y: real

    /** The vector owns its Name, if it has one: the Name is live and the
        registry records this vector as its owner. As the registry's owner
        map is a function, no two vectors own the same Name. */
    ghost predicate Valid(reg: NameRegistry)
      reads this, reg
    {
      && reg.Valid()
      && (name != null ==> name in reg.Live() && name in reg.owner && reg.owner[name] == this)
    }

    /** `NamedVector() = default`: no Name, both coordinates 0. */
    constructor Default(reg: NameRegistry)
      requires reg.Valid()
      ensures Valid(reg)
      ensures name == null && x == 0.0 && y == 0.0
    {
      name := null;
      x, y := 0.0, 0.0;
    }

    /** `NamedVector(Name*, float, float)`: the vector stores a new copy of
        the Name made by Name::copy, never the `Name*` it was given. */
    constructor (reg: NameRegistry, source: Name, x: real, y: real)
      requires reg.Valid()
      modifies reg
      ensures Valid(reg)
      ensures name != null && fresh(name) && name.v == source.v
      ensures this.x == x && this.y == y
      ensures reg.namesInMemory == old(reg.namesInMemory) + 1
      ensures reg.constructed == old(reg.constructed) + {name}
      ensures reg.destroyed == old(reg.destroyed) && reg.owner == old(reg.owner)[name := this]
    {
      var n := Name.CopyOf(reg, source);
      name := n;
      this.x, this.y := x, y;
      new;
      reg.Adopt(n, this);
    }

    /** The copy constructor: a Name of its own with the same payload. */
    constructor Copy(reg: NameRegistry, other: NamedVector)
      requires other.Valid(reg)
      modifies reg
      ensures Valid(reg) && other.Valid(reg)
      ensures (name == null) == (other.name == null)
      ensures name != null ==> fresh(name) && name.v == other.name.v
      ensures x == other.x && y == other.y
      ensures reg.namesInMemory == old(reg.namesInMemory) + (if other.name == null then 0 else 1)
      ensures reg.constructed == if name == null then old(reg.constructed) else old(reg.constructed) + {name}
      ensures reg.destroyed == old(reg.destroyed)
      ensures reg.owner == if name == null then old(reg.owner) else old(reg.owner)[name := this]
    {
      var n: Name? := null;
      if other.name != null {
        n := Name.CopyOf(reg, other.name);
      }
      name := n;
      x, y := other.x, other.y;
      new;
      if n != null {
        reg.Adopt(n, this);
      }
    }

    /** The move constructor: the Name passes to the new vector, and the
        source is left without one. The counter does not move. */
    constructor Move(reg: NameRegistry, other: NamedVector)
      requires other.Valid(reg)
      modifies reg, other
      ensures Valid(reg) && other.Valid(reg)
      ensures name == old(other.name) && other.name == null
      ensures x == old(other.x) && y == old(other.y)
      ensures other.x == old(other.x) && other.y == old(other.y)
      ensures reg.namesInMemory == old(reg.namesInMemory)
      ensures reg.constructed == old(reg.constructed) && reg.destroyed == old(reg.destroyed)
      ensures reg.owner == if name == null then old(reg.owner) else old(reg.owner)[name := this]
    {
      var n := other.name;
      name := n;
      x, y := other.x, other.y;
      other.name := null;
      new;
      if n != null {
        reg.Transfer(n, this);
      }
    }

    /** Gives up and destroys the Name this vector holds, if any. */
    method ReleaseName(reg: NameRegistry)
      requires Valid(reg)
      modifies this, reg
      ensures Valid(reg) && name == null && x == old(x) && y == old(y)
      ensures reg.namesInMemory == old(reg.namesInMemory) - (if old(name) == null then 0 else 1)
      ensures reg.constructed == old(reg.constructed)
      ensures reg.destroyed == old(reg.destroyed) + Held(old(name))
      ensures reg.owner == old(reg.owner) - Held(old(name))
    {
      if name != null {
        var n := name;
        reg.Release(n);
        n.Destroy(reg);
        name := null;
      }
    }

    /** The copy assignment operator: the Name held so far is destroyed
        and replaced by a new copy of the other vector's Name. Assigning a
        vector to itself changes nothing. */
    method CopyAssign(reg: NameRegistry, other: NamedVector)
      requires Valid(reg) && other.Valid(reg)
      modifies this, reg
      ensures Valid(reg) && other.Valid(reg)
      ensures this == other ==>
        && name == old(name) && x == old(x) && y == old(y)
        && reg.namesInMemory == old(reg.namesInMemory)
        && reg.constructed == old(reg.constructed) && reg.destroyed == old(reg.destroyed)
        && reg.owner == old(reg.owner)
      ensures this != other ==>
        && (name == null) == (other.name == null)
        && (name != null ==> fresh(name) && name.v == other.name.v)
        && x == other.x && y == other.y
        && reg.namesInMemory == old(reg.namesInMemory) - (if old(name) == null then 0 else 1) + (if other.name == null then 0 else 1)
        && reg.constructed == old(reg.constructed) + Held(name)
        && reg.destroyed == old(reg.destroyed) + Held(old(name))
        && reg.owner == Owned(old(reg.owner) - Held(old(name)), name, this)
    {
      if this != other {
        ReleaseName(reg);
        TakeCopyOf(reg, other);
      }
    }

    /** The second half of the copy assignment, once the old Name is gone:
        copy the other vector's Name, if it has one, and its coordinates. */
    method TakeCopyOf(reg: NameRegistry, other: NamedVector)
      requires Valid(reg) && other.Valid(reg) && name == null && this != other
      modifies this, reg
      ensures Valid(reg) && other.Valid(reg)
      ensures (name == null) == (other.name == null)
      ensures name != null ==> fresh(name) && name.v == other.name.v
      ensures x == other.x && y == other.y
      ensures reg.namesInMemory == old(reg.namesInMemory) + (if other.name == null then 0 else 1)
      ensures reg.constructed == old(reg.constructed) + Held(name)
      ensures reg.destroyed == old(reg.destroyed)
      ensures reg.owner == Owned(old(reg.owner), name, this)
    {
      if other.name != null {
        var n := Name.CopyOf(reg, other.name);
        name := n;
        reg.Adopt(n, this);
      }
      x, y := other.x, other.y;
    }

    /** The move assignment operator: the Name held so far is destroyed
        and the other vector's Name passes to this one. */
    method MoveAssign(reg: NameRegistry, other: NamedVector)
      requires Valid(reg) && other.Valid(reg)
      modifies this, other, reg
      ensures Valid(reg) && other.Valid(reg)
      ensures this == other ==>
        && name == old(name) && x == old(x) && y == old(y)
        && reg.namesInMemory == old(reg.namesInMemory)
        && reg.constructed == old(reg.constructed) && reg.destroyed == old(reg.destroyed)
        && reg.owner == old(reg.owner)
      ensures this != other ==>
        && name == old(other.name) && other.name == null
        && x == old(other.x) && y == old(other.y)
        && other.x == old(other.x) && other.y == old(other.y)
        && reg.namesInMemory == old(reg.namesInMemory) - (if old(name) == null then 0 else 1)
        && reg.constructed == old(reg.constructed)
        && reg.destroyed == old(reg.destroyed) + Held(old(name))
        && reg.owner == Owned(old(reg.owner) - Held(old(name)), name, this)
    {
      if this != other {
        ReleaseName(reg);
        var n := other.name;
        name := n;
        x, y := other.x, other.y;
        other.name := null;
        if n != null {
          reg.Transfer(n, this);
        }
      }
    }

    /** The destructor: the Name held, if any, is destroyed. */
    method Destroy(reg: NameRegistry)
      requires Valid(reg)
      modifies this, reg
      ensures Valid(reg) && name == null
      ensures reg.namesInMemory == old(reg.namesInMemory) - (if old(name) == null then 0 else 1)
      ensures reg.constructed == old(reg.constructed)
      ensures reg.destroyed == old(reg.destroyed) + Held(old(name))
      ensures reg.owner == old(reg.owner) - Held(old(name))
    {
      ReleaseName(reg);
    }
  }

  /** The Name a vector holds, as a set: empty for `nullptr`. */
  ghost function Held(n: Name?): set<Name> {
    if n == null then {} else {n}
  }

  /** The owner map after o takes n, if there is an n. */
  ghost function Owned(m: map<Name, object>, n: Name?, o: object): map<Name, object> {
    if n == null then m else m[n := o]
  }

  lemma OwnedKeys(m: map<Name, object>, n: Name?, o: object)
    ensures Owned(m, n, o).Keys == m.Keys + Held(n)
  {
  }

  /** The moved-from check of NamedVectorIsMovable: `nullptr`, or a
      Name whose payload is no longer the original. */
  predicate ClearedOf(n: Name?, payload: string)
    reads if n == null then {} else {n}
  {
    n == null || n.v != payload
  }

  /** No two vectors own the same Name. The body is empty because the
      registry records one owner per Name; the guarantee itself comes from
      `Adopt`, which only accepts an unowned Name, and `Transfer`, which
      only moves a Name away from its current owner, as every NamedVector
      member calls them. */
  lemma ExclusiveOwnership(reg: NameRegistry, a: NamedVector, b: NamedVector)
    requires a.Valid(reg) && b.Valid(reg) && a != b
    ensures a.name != null ==> a.name != b.name
  {
  }

  /** The end of a test's scope: the vectors are destroyed in reverse order
      of declaration, each with the Name it holds. */
  method DestroyBoth(reg: NameRegistry, a: NamedVector, b: NamedVector)
    requires a.Valid(reg) && b.Valid(reg) && a != b
    modifies a, b, reg
    ensures reg.Valid() && a.name == null && b.name == null
    ensures reg.namesInMemory == old(reg.namesInMemory) - (if old(a.name) == null then 0 else 1) - (if old(b.name) == null then 0 else 1)
    ensures reg.constructed == old(reg.constructed)
    ensures reg.destroyed == old(reg.destroyed) + Held(old(a.name)) + Held(old(b.name))
    ensures reg.owner == old(reg.owner) - Held(old(a.name)) - Held(old(b.name))
  {
    ExclusiveOwnership(reg, a, b);
    a.Destroy(reg);
    b.Destroy(reg);
  }

  /** NameIsFreedOnDelete. */
  method NameIsFreedOnDelete() returns (namesInMemory: int)
    ensures namesInMemory == 0
  {
    var reg := new NameRegistry();
    var name := new Name.FromString(reg, "Foo");
    var nv := new NamedVector(reg, name, 10.5, 20.0);
    name.Destroy(reg);
    nv.Destroy(reg);
    namesInMemory := reg.namesInMemory;
  }

  /** NameIsCopiedOnCopy. */
  method NameIsCopiedOnCopy() returns (distinctVectors: bool, distinctNames: bool, equalPayloads: bool, namesInMemory: int)
    ensures distinctVectors && distinctNames && equalPayloads
    ensures namesInMemory == 0
  {
    var reg := new NameRegistry();
    var name := new Name.FromString(reg, "Foo");
    var nv := new NamedVector(reg, name, 10.5, 20.0);
    var nv2 := new NamedVector.Copy(reg, nv);
    distinctVectors := nv != nv2;
    distinctNames := nv.name != nv2.name;
    equalPayloads := nv.name.v == nv2.name.v;
    name.Destroy(reg);
    DestroyBoth(reg, nv2, nv);
    namesInMemory := reg.namesInMemory;
  }

  /** NameIsCopiedOnAssignment. */
  method NameIsCopiedOnAssignment() returns (distinctVectors: bool, distinctNames: bool, equalPayloads: bool, namesInMemory: int)
    ensures distinctVectors && distinctNames && equalPayloads
    ensures namesInMemory == 0
  {
    var reg := new NameRegistry();
    var name := new Name.FromString(reg, "Foo");
    var name2 := new Name.FromString(reg, "Bar");
    var nv, nv2 := AssignedVectors(reg, name, name2);
    distinctVectors := nv != nv2;
    distinctNames := nv.name != nv2.name;
    equalPayloads := nv.name.v == nv2.name.v;
    name.Destroy(reg);
    name2.Destroy(reg);
    DestroyBoth(reg, nv2, nv);
    namesInMemory := reg.namesInMemory;
  }

  /** The body of NameIsCopiedOnAssignment up to its checks: two vectors
      copy the two given Names, and the first is assigned to the second.
      The given Names stay live and unowned. */
  method AssignedVectors(reg: NameRegistry, name: Name, name2: Name) returns (nv: NamedVector, nv2: NamedVector)
    requires reg.Valid() && reg.owner == map[]
    requires name in reg.Live() && name2 in reg.Live()
    modifies reg
    ensures fresh(nv) && fresh(nv2)
    ensures nv.Valid(reg) && nv2.Valid(reg) && nv != nv2
    ensures nv.name != null && nv2.name != null && nv.name != nv2.name && nv.name.v == nv2.name.v
    ensures name in reg.Live() && name !in reg.owner && name2 in reg.Live() && name2 !in reg.owner
    ensures reg.namesInMemory == old(reg.namesInMemory) + 2
  {
    nv := new NamedVector(reg, name, 10.5, 20.0);
    nv2 := new NamedVector(reg, name2, 5.0, 2.0);
    ghost var owners, held := reg.owner, nv2.name;
    nv2.CopyAssign(reg, nv);
    OwnedKeys(owners - Held(held), nv2.name, nv2);
  }

  /** NamedVectorIsMovable. */
  method NamedVectorIsMovable() returns (distinctVectors: bool, distinctNames: bool, payloadMoved: bool, sourceCleared: bool, namesInMemory: int)
    ensures distinctVectors && distinctNames && payloadMoved && sourceCleared
    ensures namesInMemory == 0
  {
    var reg := new NameRegistry();
    var name := new Name.FromString(reg, "Foo");
    var nv := new NamedVector(reg, name, 10.5, 20.0);
    var nv2 := new NamedVector.Move(reg, nv);
    distinctVectors := nv != nv2;
    distinctNames := nv.name != nv2.name;
    payloadMoved := nv2.name != null && nv2.name.v == name.v;
    sourceCleared := ClearedOf(nv.name, name.v);
    name.Destroy(reg);
    DestroyBoth(reg, nv2, nv);
    namesInMemory := reg.namesInMemory;
  }
}
