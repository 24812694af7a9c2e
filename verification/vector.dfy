/** vector.c: the growing array of slots under every command node and template. */
module Vectors {
  import opened CText

  /** The slots without the empty ones at the end. */
  function Trim<T>(s: seq<Option<T>>): seq<Option<T>> {
    if |s| > 0 && s[|s| - 1].None? then Trim(s[..|s| - 1]) else s
  }

  /** Trimming ends one past the last used slot: it cuts only empty slots and leaves none at the end. */
  lemma {:induction false} TrimIs<T>(s: seq<Option<T>>, n: nat)
    requires n <= |s| && (forall i :: n <= i < |s| ==> s[i].None?) && (n > 0 ==> s[n - 1].Some?)
    ensures Trim(s) == s[..n]
    decreases |s|
  {
    if |s| > n {
      TrimIs(s[..|s| - 1], n);
      assert s[..|s| - 1][..n] == s[..n];
    } else {
      assert s[..n] == s;
    }
  }

  /** How many slots are used. */
  function Used<T>(s: seq<Option<T>>): nat {
    if |s| == 0 then 0 else Used(s[..|s| - 1]) + (if s[|s| - 1].Some? then 1 else 0)
  }

  /** i is the least hole: every slot before it is used. */
  predicate LeastHole<T>(s: seq<Option<T>>, i: nat) {
    i <= |s| && (forall j :: 0 <= j < i ==> s[j].Some?) && (i < |s| ==> s[i].None?)
  }

  /** The slots with val at i, empty slots filled in between. */
  function Put<T>(s: seq<Option<T>>, i: nat, val: Option<T>): (r: seq<Option<T>>)
    ensures |r| == if i < |s| then |s| else i + 1
  {
    if i < |s| then s[i := val] else s + seq(i - |s|, _ => None) + [val]
  }

  class Vector<T> {
    var max: nat
    var index: array<Option<T>>

    ghost predicate Valid()
      reads this, index
    {
      && index.Length > 0 && max <= index.Length
      && forall i :: max <= i < index.Length ==> index[i].None?
    }

    ghost function Slots(): seq<Option<T>>
      requires Valid()
      reads this, index
    {
      index[..max]
    }

    constructor (size: nat)
      ensures Valid() && fresh(index) && Slots() == [] && index.Length == if size == 0 then 1 else size
    {
      var n := if size == 0 then 1 else size;
      max := 0;
      index := new Option<T>[n](_ => None);
    }

    /** vector_copy. */
    constructor Copy(v: Vector<T>)
      requires v.Valid()
      ensures Valid() && fresh(index) && Slots() == v.Slots() && index.Length == v.index.Length
    {
      max := v.max;
      index := new Option<T>[v.index.Length](i requires 0 <= i < v.index.Length reads v, v.index => v.index[i]);
    }

    /** Doubles until there are more than num slots, and never beyond twice num. */
    method Ensure(num: nat)
      requires Valid()
      modifies this`index
      ensures Valid() && Slots() == old(Slots()) && max == old(max) && num < index.Length
      ensures index == old(index) || fresh(index)
      ensures index.Length == old(index.Length) || index.Length <= 2 * num
      decreases if index.Length > num then 0 else num + 1 - index.Length
    {
      if index.Length > num {
        return;
      }
      var n := index.Length;
      var bigger := new Option<T>[2 * n](i requires 0 <= i < 2 * n reads this, index => if i < index.Length then index[i] else None);
      index := bigger;
      if index.Length <= num {
        Ensure(num);
      }
    }

    method EmptySlot() returns (i: nat)
      requires Valid()
      ensures LeastHole(Slots(), i)
    {
      i := 0;
      while i < max
        invariant i <= max && forall j :: 0 <= j < i ==> index[j].Some?
      {
        if index[i].None? {
          return;
        }
        i := i + 1;
      }
    }

    method SetIndex(i: nat, val: Option<T>)
      requires Valid()
      modifies this, index
      ensures Valid() && Slots() == Put(old(Slots()), i, val) && (index == old(index) || fresh(index))
    {
      ghost var was := Slots();
      Ensure(i);
      index[i] := val;
      if max <= i {
        max := i + 1;
      }
      assert Slots() == Put(was, i, val);
    }

    /** vector_set fills the least hole. */
    method Set(val: Option<T>) returns (i: nat)
      requires Valid()
      modifies this, index
      ensures Valid() && LeastHole(old(Slots()), i) && Slots() == Put(old(Slots()), i, val) && (index == old(index) || fresh(index))
    {
      i := EmptySlot();
      SetIndex(i, val);
    }

    /** Unsetting the last slot trims; any other slot only becomes empty. */
    method Unset(i: nat)
      requires Valid()
      modifies this, index
      ensures Valid() && index == old(index)
      ensures Slots() == if i + 1 == old(max) then Trim(old(Slots())[..i]) else if i < old(max) then old(Slots())[i := None] else old(Slots())
    {
      if i >= index.Length {
        return;
      }
      ghost var was := Slots();
      index[i] := None;
      if i + 1 == max {
        max := max - 1;
        var k := i;
        while k > 0 && index[k - 1].None?
          invariant k == max <= i && index == old(index) && index.Length == old(index.Length)
          invariant forall j :: 0 <= j < i ==> index[j] == was[j]
          invariant forall j :: max <= j < index.Length ==> index[j].None?
        {
          k := k - 1;
          max := max - 1;
        }
        TrimIs(was[..i], max);
        assert was[..i][..max] == Slots();
      }
    }

    method Count() returns (count: nat)
      requires Valid()
      ensures count == Used(Slots())
    {
      count := 0;
      for i := 0 to max
        invariant count == Used(index[..i])
      {
        assert index[..i + 1][..i] == index[..i];
        if index[i].Some? {
          count := count + 1;
        }
      }
    }
  }
}
