/** The instance-counted `Name` of the named-vector exercises. The static
    counter `Name::names_in_memory` becomes an explicit registry object that
    every constructor and the destructor are given; C++ destruction becomes
    an explicit Destroy call. Next to the counter the registry keeps, as ghost
    state, which Names were ever constructed, which were destroyed since, and
    which object owns each owned Name. */
module Names {

  class NameRegistry {
    /** `Name::names_in_memory`. */
    var namesInMemory: int
    ghost var constructed: set<Name>
    ghost var destroyed: set<Name>
    /** The owner of every Name some object holds and must release. */
    ghost var owner: map<Name, object>

    /** The Names constructed and not yet destroyed. */
    ghost function Live(): set<Name>
      reads this
    {
      constructed - destroyed
    }

    /** The counter is the number of constructions minus the number of
        destructions, nothing is destroyed that was not constructed, and
        only live Names have owners. */
    ghost predicate Valid()
      reads this
    {
      && destroyed <= constructed
      && namesInMemory == |constructed| - |destroyed|
      && owner.Keys <= Live()
    }

    /** The fixture's SetUp: the counter starts at 0. */
    constructor ()
      ensures Valid() && namesInMemory == 0
      ensures constructed == {} && destroyed == {} && owner == map[]
    {
      namesInMemory := 0;
      constructed := {};
      destroyed := {};
      owner := map[];
    }

    /** The counter is the number of live Names, so it is never negative. */
    lemma LiveCount()
      requires Valid()
      ensures |Live()| == namesInMemory
      ensures namesInMemory >= 0
    {
      assert constructed == Live() + destroyed;
      assert Live() !! destroyed;
    }

    /** What every constructor of Name does to the counter. */
    method Register(n: Name)
      requires Valid() && n !in constructed
      modifies this
      ensures Valid()
      ensures namesInMemory == old(namesInMemory) + 1
      ensures constructed == old(constructed) + {n}
      ensures destroyed == old(destroyed) && owner == old(owner)
    {
      namesInMemory := namesInMemory + 1;
      constructed := constructed + {n};
    }

    /** What the destructor of Name does to the counter. Only a live Name
        that nobody owns may be destroyed, so nothing is destroyed twice. */
    method Unregister(n: Name)
      requires Valid() && n in Live() && n !in owner
      modifies this
      ensures Valid()
      ensures namesInMemory == old(namesInMemory) - 1
      ensures destroyed == old(destroyed) + {n}
      ensures constructed == old(constructed) && owner == old(owner)
    {
      namesInMemory := namesInMemory - 1;
      destroyed := destroyed + {n};
    }

    /** o takes ownership of the live, unowned Name n. */
    ghost method Adopt(n: Name, o: object)
      requires Valid() && n in Live() && n !in owner
      modifies this
      ensures Valid()
      ensures owner == old(owner)[n := o]
      ensures namesInMemory == old(namesInMemory)
      ensures constructed == old(constructed) && destroyed == old(destroyed)
    {
      owner := owner[n := o];
    }

    /** The owner of n gives it up. */
    ghost method Release(n: Name)
      requires Valid() && n in owner
      modifies this
      ensures Valid()
      ensures owner == old(owner) - {n}
      ensures namesInMemory == old(namesInMemory)
      ensures constructed == old(constructed) && destroyed == old(destroyed)
    {
      owner := owner - {n};
    }

    /** o hands the Name n over to o'. */
    ghost method Transfer(n: Name, o': object)
      requires Valid() && n in owner
      modifies this
      ensures Valid()
      ensures owner == old(owner)[n := o']
      ensures namesInMemory == old(namesInMemory)
      ensures constructed == old(constructed) && destroyed == old(destroyed)
    {
      owner := owner[n := o'];
    }
  }

  class Name {
    /** The payload `v`, empty unless a constructor or an assignment sets it. */
    var v: string

    /** `Name()`: v is empty and the counter goes up by one. */
    constructor Default(reg: NameRegistry)
      requires reg.Valid()
      modifies reg
      ensures v == ""
      ensures reg.Valid() && reg.namesInMemory == old(reg.namesInMemory) + 1
      ensures reg.constructed == old(reg.constructed) + {this}
      ensures reg.destroyed == old(reg.destroyed) && reg.owner == old(reg.owner)
    {
      v := "";
      new;
      reg.Register(this);
    }

    /** `Name(const std::string&)`: v is the argument and the counter goes up by one. */
    constructor FromString(reg: NameRegistry, name: string)
      requires reg.Valid()
      modifies reg
      ensures v == name
      ensures reg.Valid() && reg.namesInMemory == old(reg.namesInMemory) + 1
      ensures reg.constructed == old(reg.constructed) + {this}
      ensures reg.destroyed == old(reg.destroyed) && reg.owner == old(reg.owner)
    {
      v := name;
      new;
      reg.Register(this);
    }

    /** `Name(const Name&)`: v is copied and the counter goes up by one. */
    constructor Copy(reg: NameRegistry, other: Name)
      requires reg.Valid()
      modifies reg
      ensures v == other.v
      ensures reg.Valid() && reg.namesInMemory == old(reg.namesInMemory) + 1
      ensures reg.constructed == old(reg.constructed) + {this}
      ensures reg.destroyed == old(reg.destroyed) && reg.owner == old(reg.owner)
    {
      v := other.v;
      new;
      reg.Register(this);
    }

    /** `Name::copy(const Name*)`, which the header documents as the way to
        copy a Name: a new Name with the same payload. */
    static method CopyOf(reg: NameRegistry, name: Name) returns (r: Name)
      requires reg.Valid()
      modifies reg
      ensures fresh(r) && r.v == name.v
      ensures reg.Valid() && reg.namesInMemory == old(reg.namesInMemory) + 1
      ensures reg.constructed == old(reg.constructed) + {r}
      ensures reg.destroyed == old(reg.destroyed) && reg.owner == old(reg.owner)
    {
      r := new Name.Copy(reg, name);
    }

    /** `operator=(const Name&)`: v is copied; the counter is not touched. */
    method Assign(other: Name)
      modifies this
      ensures v == old(other.v) && other.v == old(other.v)
    {
      v := other.v;
    }

    /** `operator==`: Names are equal when their payloads are. */
    predicate Equals(other: Name)
      reads this, other
    {
      v == other.v
    }

    /** `~Name()`: the counter goes down by one. */
    method Destroy(reg: NameRegistry)
      requires reg.Valid() && this in reg.Live() && this !in reg.owner
      modifies reg
      ensures reg.Valid() && reg.namesInMemory == old(reg.namesInMemory) - 1
      ensures reg.destroyed == old(reg.destroyed) + {this}
      ensures reg.constructed == old(reg.constructed) && reg.owner == old(reg.owner)
    {
      reg.Unregister(this);
    }
  }

  /** `operator==` compares payloads only, so it is an equivalence. */
  lemma EqualsIsEquivalence(a: Name, b: Name, c: Name)
    ensures a.Equals(a)
    ensures a.Equals(b) ==> b.Equals(a)
    ensures a.Equals(b) && b.Equals(c) ==> a.Equals(c)
  {
  }

  /** The header's lifecycle on one registry: construct, copy, construct a
      second and assign the first to it, destroy all three. The counter
      reads 1, 2, 3, still 3 after the assignment, and finally 0. */
  method NameLifecycle() returns (constructed: int, copied: int, second: int, afterAssign: int, destroyed: int, copyEquals: bool, assignedEquals: bool)
    ensures constructed == 1 && copied == 2 && second == 3 && afterAssign == 3 && destroyed == 0
    ensures copyEquals && assignedEquals
  {
    var reg := new NameRegistry();
    var a := new Name.FromString(reg, "Foo");
    constructed := reg.namesInMemory;
    var b := new Name.Copy(reg, a);
    copied := reg.namesInMemory;
    copyEquals := b.Equals(a);
    var c := new Name.FromString(reg, "Bar");
    second := reg.namesInMemory;
    c.Assign(a);
    afterAssign := reg.namesInMemory;
    assignedEquals := c.Equals(a);
    destroyed := DestroyAll(reg, c, b, a);
  }

  /** The end of the lifecycle: the three Names go out of scope in reverse
      order of construction and the counter is back at 0. */
  method DestroyAll(reg: NameRegistry, c: Name, b: Name, a: Name) returns (count: int)
    requires reg.Valid() && reg.constructed == {a, b, c} && reg.destroyed == {} && reg.owner == map[]
    requires a != b && b != c && a != c
    modifies reg
    ensures reg.Valid() && reg.destroyed == {a, b, c} && reg.owner == map[]
    ensures count == reg.namesInMemory == 0
  {
    c.Destroy(reg);
    b.Destroy(reg);
    a.Destroy(reg);
    count := reg.namesInMemory;
  }
}
