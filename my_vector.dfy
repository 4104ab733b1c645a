/** `my_vector`: the limb store of the optimised big integer. Up to four limbs
    live inline in the object; past that the limbs move to a heap vector held
    through a `shared_ptr` and shared between copies, which every
    writer detaches (`fork`) before changing it. */
module LimbStore {
  import opened Limbs

  /** The number of limbs the inline buffer holds. */
  const SMALL_SIZE: nat := 4

  /** The shared heap vector together with its reference count. `owners`
      records, with multiplicity, which `my_vector`s hold a `shared_ptr` to it;
      the use count it keeps is the size of that multiset. */
  class LimbBlock {
    var items: seq<Limb>
    var useCount: nat
    ghost var owners: multiset<object>

    /** The reference count agrees with the owners. */
    ghost predicate Counted()
      reads this
    {
      useCount == |owners|
    }

    /** `v` gave up its `shared_ptr`: the limbs are as they were and the count
        is one less. */
    twostate predicate DroppedBy(v: object)
      reads this
    {
      && items == old(items)
      && owners == old(owners) - multiset{v}
      && useCount == old(useCount) - 1
    }

    /** A fresh block owned by `owner` alone. */
    constructor Own(limbs: seq<Limb>, ghost owner: object)
      ensures Counted() && items == limbs && owners == multiset{owner} && useCount == 1
    {
      items := limbs;
      useCount := 1;
      owners := multiset{owner};
    }

    /** Copying the `shared_ptr`: one more owner. */
    method Share(v: object)
      requires Counted()
      modifies this
      ensures Counted() && items == old(items) && owners == old(owners) + multiset{v}
      ensures useCount == old(useCount) + 1
    {
      useCount := useCount + 1;
      owners := owners + multiset{v};
    }

    /** Destroying or resetting the `shared_ptr` held by `v`. */
    method Drop(v: object)
      requires Counted() && v in owners
      modifies this
      ensures Counted() && DroppedBy(v)
    {
      useCount := useCount - 1;
      owners := owners - multiset{v};
    }
  }

  /** An owner whose `shared_ptr` is the only one is the sole owner. */
  lemma SoleOwner(m: multiset<object>, v: object)
    requires v in m
    ensures |m| == 1 <==> m == multiset{v}
  {
    var rest := m - multiset{v};
    assert m == rest + multiset{v};
    if |m| == 1 {
      assert |rest| == 0;
      assert rest == multiset{};
    }
  }

  /** The result of `operator[] const`: the limb, or the `out_of_range` that
      `at` throws in heap mode. */
  datatype Lookup = Found(value: Limb) | OutOfRange

  class MyVector {
    /** The inline buffer `small_object`; it is part of the object, so a
        value of four limbs. */
    var small: seq<Limb>
    /** `big_object`: the shared heap vector, null in small mode. */
    var big: LimbBlock?
    var isBig: bool
    var elements: nat

    /** The representation invariant: small mode keeps at most four limbs
        inline; heap mode holds a block this vector co-owns whose length is
        `elements`, with a reference count that agrees with its owners. */
    ghost predicate Valid()
      reads this, big
    {
      && |small| == SMALL_SIZE
      && (isBig ==> big != null && big.Counted() && this in big.owners && |big.items| == elements)
      && (!isBig ==> big == null && elements <= SMALL_SIZE)
    }

    /** The limbs, least significant first. */
    function Contents(): (r: seq<Limb>)
      reads this, big
      requires Valid()
      ensures |r| == elements
    {
      if isBig then big.items else small[..elements]
    }

    /** `is_shared()`: the heap vector has another owner. */
    predicate IsShared(): (r: bool)
      reads this, big
      requires Valid()
      ensures r <==> isBig && big.owners != multiset{this}
    {
      if isBig then SoleOwner(big.owners, this); big.useCount != 1 else false
    }

    /** The default constructor: small mode, no limbs. */
    constructor()
      ensures Valid() && !isBig && Contents() == []
    {
      small := Fill(0, SMALL_SIZE);
      big := null;
      isBig := false;
      elements := 0;
    }

    /** The copy constructor: the same limbs, sharing the heap vector. */
    constructor Copy(other: MyVector)
      requires other.Valid()
      modifies other.big
      ensures other.Valid() && other.Contents() == old(other.Contents())
      ensures Valid() && Contents() == other.Contents() && isBig == other.isBig
      ensures isBig ==> big == other.big && big.owners == old(other.big.owners) + multiset{this}
    {
      small := Fill(0, SMALL_SIZE);
      big := null;
      isBig := false;
      elements := 0;
      new;
      CopyFrom(other);
    }

    /** `copy(other)`: fill this object's storage from `other`; the heap
        vector is shared, the inline buffer copied. Whatever this object
        held before is overwritten, not released. */
    method CopyFrom(other: MyVector)
      requires other.Valid() && this != other && |small| == SMALL_SIZE
      modifies this, other.big
      ensures other.Valid() && other.Contents() == old(other.Contents())
      ensures Valid() && Contents() == old(other.Contents()) && isBig == other.isBig
      ensures isBig ==> big == other.big && big.owners == old(other.big.owners) + multiset{this}
    {
      if other.isBig {
        other.big.Share(this);
        big := other.big;
      } else {
        small := other.small;
        big := null;
      }
      isBig := other.isBig;
      elements := other.elements;
    }

    /** The destructor: in heap mode, give up the `shared_ptr`. */
    method Destroy()
      requires Valid()
      modifies big
      ensures isBig ==> big.DroppedBy(this)
    {
      if isBig {
        big.Drop(this);
      }
    }

    /** `operator=`: self-assignment changes nothing; otherwise release the
        old storage and copy `other`'s. */
    method Assign(other: MyVector)
      requires Valid() && other.Valid()
      modifies this, big, other.big
      ensures Valid() && Contents() == old(other.Contents()) && isBig == old(other.isBig)
      ensures other.Valid() && other.Contents() == old(other.Contents())
      ensures this == other ==> unchanged(this)
      ensures this != other && old(isBig) && old(big) != other.big ==> old(big).DroppedBy(this)
    {
      if this == other {
        return;
      }
      Destroy();
      CopyFrom(other);
    }

    /** `size()`. */
    function Size(): (r: nat)
      reads this, big
      requires Valid()
      ensures r == |Contents()|
    {
      elements
    }

    /** `operator[] const`: the limb at `index`. Heap mode checks the index
        (`at`); small mode reads the inline cell, so an index past four is
        outside the object. */
    function Get(index: nat): (r: Lookup)
      reads this, big
      requires Valid() && (isBig || index < SMALL_SIZE)
      ensures index < |Contents()| ==> r == Found(Contents()[index])
      ensures isBig && index >= |Contents()| ==> r == OutOfRange
    {
      if isBig then
        if index < |big.items| then Found(big.items[index]) else OutOfRange
      else
        Found(small[index])
    }

    /** `fork()`: a shared heap vector is replaced by a private copy. */
    method Fork()
      requires Valid()
      modifies this, big
      ensures Valid() && Contents() == old(Contents()) && isBig == old(isBig)
      ensures isBig ==> big.owners == multiset{this}
      ensures old(IsShared()) ==> fresh(big) && old(big).DroppedBy(this)
      ensures !old(IsShared()) ==> unchanged(this) && big == old(big)
    {
      if IsShared() {
        var copied := new LimbBlock.Own(big.items, this);
        big.Drop(this);
        big := copied;
      }
    }

    /** `expand()`: move the inline limbs to a fresh heap vector; nothing
        to do in heap mode. */
    method Expand()
      requires Valid()
      modifies this
      ensures Valid() && isBig && Contents() == old(Contents())
      ensures old(isBig) ==> unchanged(this)
      ensures !old(isBig) ==> fresh(big) && big.owners == multiset{this}
    {
      if isBig {
        return;
      }
      big := new LimbBlock.Own(small[..elements], this);
      isBig := true;
    }

    /** `push_back(x)`: append, moving to heap mode when the inline buffer
        is full. */
    method PushBack(x: Limb)
      requires Valid()
      modifies this, big
      ensures Valid() && Contents() == old(Contents()) + [x]
      ensures isBig == (old(isBig) || old(elements) == SMALL_SIZE)
      ensures isBig ==> big.owners == multiset{this}
      ensures old(IsShared()) ==> old(big).DroppedBy(this)
    {
      Fork();
      if elements == SMALL_SIZE {
        Expand();
      }
      if isBig {
        big.items := big.items + [x];
      } else {
        small := small[elements := x];
      }
      elements := elements + 1;
    }

    /** `pop_back()`: drop the last limb. There is no emptiness check, so
        the vector must not be empty; heap mode stays heap mode. */
    method PopBack()
      requires Valid() && elements > 0
      modifies this, big
      ensures Valid() && Contents() == old(Contents())[..old(elements) - 1]
      ensures isBig == old(isBig)
      ensures isBig ==> big.owners == multiset{this}
      ensures old(IsShared()) ==> old(big).DroppedBy(this)
    {
      Fork();
      elements := elements - 1;
      if isBig {
        big.items := big.items[..|big.items| - 1];
      }
    }

    /** `resize(n)`: cut to `n` limbs or pad with zero limbs; growing past
        four moves to heap mode. Asking for the current size does nothing,
        not even a fork. */
    method Resize(n: nat)
      requires Valid()
      modifies this, big
      ensures Valid() && Contents() == Resized(old(Contents()), n)
      ensures isBig == (old(isBig) || n > SMALL_SIZE)
      ensures n == old(elements) ==> unchanged(this)
      ensures n != old(elements) && isBig ==> big.owners == multiset{this}
      ensures n != old(elements) && old(IsShared()) ==> old(big).DroppedBy(this)
    {
      if n == elements {
        return;
      }
      if isBig {
        Fork();
        big.items := Resized(big.items, n);
      }
      if !isBig && n > SMALL_SIZE {
        Expand();
        big.items := Resized(big.items, n);
      }
      if !isBig && n <= SMALL_SIZE && n > elements {
        small := small[..elements] + Fill(0, n - elements) + small[n..];
      }
      elements := n;
    }

    /** `operator[]` used to store `x` at `index`: fork, then write. Heap
        mode checks the index (`at` throws, after the fork); small mode
        writes the inline cell, which is not a limb when `index` is past
        the size. */
    method Store(index: nat, x: Limb) returns (ok: bool)
      requires Valid() && (isBig || index < SMALL_SIZE)
      modifies this, big
      ensures Valid() && isBig == old(isBig)
      ensures ok <==> !isBig || index < old(elements)
      ensures index < old(elements) ==> Contents() == old(Contents())[index := x]
      ensures index >= old(elements) ==> Contents() == old(Contents())
      ensures isBig ==> big.owners == multiset{this}
      ensures old(IsShared()) ==> old(big).DroppedBy(this)
    {
      Fork();
      if isBig {
        ok := index < |big.items|;
        if ok {
          big.items := big.items[index := x];
        }
      } else {
        small := small[index := x];
        ok := true;
      }
    }
  }

  /** A copy shares a heap vector until one of the two writes: appending to
      the original then forks it, and the copy still reads the old limbs. */
  method SharedCopyUnaffected(x: Limb) returns (a: MyVector, b: MyVector)
    ensures a.Valid() && b.Valid() && a.isBig && b.isBig
    ensures a.Contents() == [0, 0, 0, 0, 0, x] && b.Contents() == [0, 0, 0, 0, 0]
    ensures a.big != b.big && b.big.owners == multiset{b}
  {
    a := new MyVector();
    a.Resize(5);
    b := new MyVector.Copy(a);
    assert b.big.owners == multiset{a} + multiset{b};
    a.PushBack(x);
    assert b.big.owners == multiset{a} + multiset{b} - multiset{a};
  }

  /** Heap mode never reverts: cutting a six-limb vector down to three limbs
      keeps them in a heap vector. */
  method ShrunkStaysBig() returns (v: MyVector)
    ensures v.Valid() && v.isBig && v.Contents() == [0, 0, 0] && v.Size() <= SMALL_SIZE
  {
    v := new MyVector();
    v.Resize(6);
    v.PopBack();
    v.Resize(3);
  }
}
