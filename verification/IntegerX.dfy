/** INTEGER_X: sign and magnitude, in a limb array that grows on demand. */
module IntegerX {
  import opened Limbs

  function Abs(size: int): nat
  {
    if size < 0 then -size else size
  }

  /** The magnitude has no leading zero limb. */
  ghost predicate Normal(a: array<Limb>, size: int)
    reads a
  {
    Abs(size) <= a.Length && (size != 0 ==> a[Abs(size) - 1] != 0)
  }

  ghost function Signed(a: array<Limb>, size: int): int
    requires Abs(size) <= a.Length
    reads a
  {
    if size < 0 then -Val(a[..-size]) else Val(a[..size])
  }

  class Integer {
    var item: array<Limb>
    var count: int

    ghost predicate Valid()
      reads this, item
    {
      item.Length >= 1 && Normal(item, count)
    }

    ghost function Value(): int
      requires Valid()
      reads this, item
    {
      Signed(item, count)
    }

    constructor ()
      ensures Valid() && Value() == 0 && fresh(item)
    {
      item := new Limb[1](_ => 0);
      count := 0;
    }

    /** More room, with the old limbs kept. */
    method Resize(newAlloc: nat)
      requires item.Length >= 1
      modifies this`item
      ensures item.Length >= newAlloc && item.Length >= old(item.Length) && (item == old(item) || fresh(item))
      ensures item[..old(item.Length)] == old(item[..])
    {
      if newAlloc > item.Length {
        var size := if newAlloc > 1 then newAlloc else 1;
        var grown := new Limb[size](_ => 0);
        forall i | 0 <= i < item.Length {
          grown[i] := item[i];
        }
        item := grown;
      }
    }
  }

  /** Different integers never share their limbs. */
  ghost predicate Separate(x: Integer, y: Integer)
    reads x, y
  {
    x == y || x.item != y.item
  }
}
