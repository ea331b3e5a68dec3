/** `NamedVectorValue`, which holds its Name as a member. Its special
    members are all implicit, so each one does to the member what Name's
    own members do: a construction of the vector constructs a Name, an
    assignment assigns one, and destroying the vector destroys its Name.
    Name declares a copy constructor, a copy assignment and a destructor,
    so it has no move operations: `std::move` of a vector copies the Name,
    and a move assignment is the copy assignment. */
module NamedVectorValues {
  import opened Names

  class NamedVectorValue {
    var name: Name
    var x: real
    var y: real

    /** The member Name is live and owned by this vector alone. */
    ghost predicate Valid(reg: NameRegistry)
      reads this, reg
    {
      && reg.Valid()
      && name in reg.Live() && name in reg.owner && reg.owner[name] == this
    }

    /** `NamedVectorValue() = default`: the member is default-constructed,
        so the counter goes up by one. */
    constructor Default(reg: NameRegistry)
      requires reg.Valid()
      modifies reg
      ensures Valid(reg) && fresh(name) && name.v == ""
      ensures x == 0.0 && y == 0.0
      ensures reg.namesInMemory == old(reg.namesInMemory) + 1
      ensures reg.constructed == old(reg.constructed) + {name}
      ensures reg.destroyed == old(reg.destroyed) && reg.owner == old(reg.owner)[name := this]
    {
      var n := new Name.Default(reg);
      name := n;
      x, y := 0.0, 0.0;
      new;
      reg.Adopt(n, this);
    }

    /** `NamedVectorValue(const Name&, float, float)`: the member is
        copy-constructed from the argument. */
    constructor (reg: NameRegistry, source: Name, x: real, y: real)
      requires reg.Valid()
      modifies reg
      ensures Valid(reg) && fresh(name) && name.Equals(source)
      ensures this.x == x && this.y == y
      ensures reg.namesInMemory == old(reg.namesInMemory) + 1
      ensures reg.constructed == old(reg.constructed) + {name}
      ensures reg.destroyed == old(reg.destroyed) && reg.owner == old(reg.owner)[name := this]
    {
      var n := new Name.Copy(reg, source);
      name := n;
      this.x, this.y := x, y;
      new;
      reg.Adopt(n, this);
    }

    /** The implicit copy constructor, which `std::move` of a vector also
        selects: the member is copy-constructed and the source keeps its
        own Name, unchanged. */
    constructor Copy(reg: NameRegistry, other: NamedVectorValue)
      requires other.Valid(reg)
      modifies reg
      ensures Valid(reg) && other.Valid(reg)
      ensures fresh(name) && name.Equals(other.name)
      ensures x == other.x && y == other.y
      ensures reg.namesInMemory == old(reg.namesInMemory) + 1
      ensures reg.constructed == old(reg.constructed) + {name}
      ensures reg.destroyed == old(reg.destroyed) && reg.owner == old(reg.owner)[name := this]
    {
      var n := new Name.Copy(reg, other.name);
      name := n;
      x, y := other.x, other.y;
      new;
      reg.Adopt(n, this);
    }

    /** The implicit copy assignment, which a move assignment also
        selects: the member is assigned with Name's operator=, so it keeps
        its identity, takes the payload, and the counter does not move. */
    method Assign(reg: NameRegistry, other: NamedVectorValue)
      requires Valid(reg) && other.Valid(reg)
      modifies this, name
      ensures Valid(reg) && other.Valid(reg)
      ensures name == old(name) && name.Equals(other.name) && other.name.v == old(other.name.v)
      ensures x == old(other.x) && y == old(other.y)
    {
      var n := name;
      n.Assign(other.name);
      x, y := other.x, other.y;
    }

    /** The implicit destructor: the member is destroyed. */
    method Destroy(reg: NameRegistry)
      requires Valid(reg)
      modifies reg
      ensures reg.Valid() && name !in reg.Live()
      ensures reg.namesInMemory == old(reg.namesInMemory) - 1
      ensures reg.constructed == old(reg.constructed)
      ensures reg.destroyed == old(reg.destroyed) + {name}
      ensures reg.owner == old(reg.owner) - {name}
    {
      reg.Release(name);
      name.Destroy(reg);
    }
  }

  /** NameIsFreedOnDelete. */
  method NameIsFreedOnDelete() returns (namesInMemory: int)
    ensures namesInMemory == 0
  {
    var reg := new NameRegistry();
    var name := new Name.FromString(reg, "Foo");
    var nv := new NamedVectorValue(reg, name, 10.5, 20.0);
    nv.Destroy(reg);
    name.Destroy(reg);
    namesInMemory := reg.namesInMemory;
  }

  /** NameIsCopiedOnCopy. */
  method NameIsCopiedOnCopy() returns (distinctVectors: bool, equalNames: bool, namesInMemory: int)
    ensures distinctVectors && equalNames
    ensures namesInMemory == 0
  {
    var reg := new NameRegistry();
    var name := new Name.FromString(reg, "Foo");
    var nv := new NamedVectorValue(reg, name, 10.5, 20.0);
    var nv2 := new NamedVectorValue.Copy(reg, nv);
    distinctVectors := nv != nv2;
    equalNames := nv.name.Equals(nv2.name);
    nv2.Destroy(reg);
    nv.Destroy(reg);
    name.Destroy(reg);
    namesInMemory := reg.namesInMemory;
  }

  /** NameIsCopiedOnAssignment. */
  method NameIsCopiedOnAssignment() returns (distinctVectors: bool, equalNames: bool, countUnchanged: bool, namesInMemory: int)
    ensures distinctVectors && equalNames && countUnchanged
    ensures namesInMemory == 0
  {
    var reg := new NameRegistry();
    var name := new Name.FromString(reg, "Foo");
    var name2 := new Name.FromString(reg, "Bar");
    var nv := new NamedVectorValue(reg, name, 10.5, 20.0);
    var nv2 := new NamedVectorValue(reg, name2, 5.0, 2.0);
    var before := reg.namesInMemory;
    nv2.Assign(reg, nv);
    countUnchanged := reg.namesInMemory == before;
    distinctVectors := nv != nv2;
    equalNames := nv.name.Equals(nv2.name);
    nv2.Destroy(reg);
    nv.Destroy(reg);
    name2.Destroy(reg);
    name.Destroy(reg);
    namesInMemory := reg.namesInMemory;
  }

  /** NamedVectorIsMovable: `std::move(nv)` selects the copy constructor. */
  method NamedVectorIsMovable() returns (distinctVectors: bool, equalToOriginal: bool, namesInMemory: int)
    ensures distinctVectors && equalToOriginal
    ensures namesInMemory == 0
  {
    var reg := new NameRegistry();
    var name := new Name.FromString(reg, "Foo");
    var nv := new NamedVectorValue(reg, name, 10.5, 20.0);
    var nv2 := new NamedVectorValue.Copy(reg, nv);
    distinctVectors := nv != nv2;
    equalToOriginal := nv2.name.Equals(name);
    nv2.Destroy(reg);
    nv.Destroy(reg);
    name.Destroy(reg);
    namesInMemory := reg.namesInMemory;
  }
}
