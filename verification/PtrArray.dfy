/** Model of the resizable array, kern/lib/array.c. noMem tells whether kmalloc would fail; a NULL vector is one of
    length 0. */
module PtrArray {

  const MAX: nat := 0x2000_0000

  class Array<T(0)> {
    var num: nat
    var v: array<T>

    ghost predicate Valid()
      reads this
    {
      num <= v.Length <= 2 * MAX
    }

    ghost function Contents(): (s: seq<T>)
      requires Valid()
      reads this, v
      ensures |s| == num
    {
      v[..num]
    }

    lemma At(i: nat)
      requires Valid() && i < num
      ensures v[i] == Contents()[i]
    {
    }

    /** array_create */
    constructor ()
      ensures Valid() && Contents() == [] && v.Length == 0 && fresh(v)
    {
      num := 0;
      v := new T[0];
    }

    /** array_preallocate; it moves the elements even if there was room */
    method Preallocate(nguys: nat, noMem: bool) returns (ok: bool)
      requires Valid() && nguys <= MAX
      modifies this
      ensures Valid() && ok == !noMem && num == old(num) && Contents() == old(Contents())
      ensures if ok then fresh(v) && v.Length >= nguys && v.Length >= old(v.Length) else unchanged(this)
    {
      var newmax := if v.Length == 0 then 1 else v.Length;
      while nguys > newmax
        invariant 0 < newmax <= 2 * MAX && newmax >= v.Length
        decreases nguys - newmax
        modifies {}
      {
        newmax := newmax * 2;
      }
      if noMem { return false; }
      var newv := new T[newmax];
      var i := 0;
      while i < num
        modifies newv
        invariant 0 <= i <= num && newv[..i] == v[..i]
      {
        newv[i] := v[i];
        i := i + 1;
      }
      v := newv;
      return true;
    }

    /** array_setsize; shrinking a large array to nothing gives its memory back */
    method SetSize(nguys: nat, noMem: bool) returns (ok: bool)
      requires Valid() && nguys <= MAX
      modifies this
      ensures Valid() && ok == !(nguys > old(v.Length) && noMem)
      ensures !ok ==> unchanged(this)
      ensures ok ==> num == nguys && forall i :: 0 <= i < old(num) && i < nguys ==> v[i] == old(v[i])
      ensures ok && nguys > old(v.Length) ==> fresh(v) && v.Length >= nguys
      ensures nguys <= old(v.Length) && !(nguys == 0 && old(v.Length) > 16) ==> v == old(v)
      ensures nguys == 0 && old(v.Length) > 16 ==> v.Length == 0 && fresh(v)
    {
      if nguys > v.Length {
        ghost var was := Contents();
        ok := Preallocate(nguys, noMem);
        if !ok { return; }
        assert forall i :: 0 <= i < num ==> v[i] == Contents()[i] == was[i];
      } else if nguys == 0 && v.Length > 16 {
        v := new T[0];
      }
      num := nguys;
      return true;
    }

    /** array_add */
    method Add(guy: T, noMem: bool) returns (ok: bool)
      requires Valid() && num < MAX
      modifies this, v
      ensures Valid() && ok == !(old(num) == old(v.Length) && noMem)
      ensures Contents() == if ok then old(Contents()) + [guy] else old(Contents())
      ensures (v == old(v) || fresh(v)) && v.Length >= old(v.Length)
    {
      var ix := num;
      ok := SetSize(ix + 1, noMem);
      if !ok { return; }
      v[ix] := guy;
    }

    /** array_remove */
    method Remove(index: nat)
      requires Valid() && index < num
      modifies this, v
      ensures Valid() && v == old(v) && Contents() == old(Contents())[..index] + old(Contents())[index + 1..]
    {
      var i := index;
      while i + 1 < num
        modifies v
        invariant index <= i < num
        invariant forall j :: 0 <= j < v.Length ==> v[j] == if index <= j < i then old(v[j + 1]) else old(v[j])
      {
        v[i] := v[i + 1];
        i := i + 1;
      }
      num := num - 1;
    }
  }
}
