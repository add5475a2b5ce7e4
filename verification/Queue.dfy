/** Model of the ring-buffer queue, kern/lib/queue.c. noMem tells whether kmalloc would fail. */
module Queue {

  /** The elements from index r up to index w, going round. */
  function Ring<T>(s: seq<T>, r: nat, w: nat): (q: seq<T>)
    requires r < |s| && w < |s|
    ensures |q| == if r <= w then w - r else |s| - r + w
  {
    if r <= w then s[r..w] else s[r..] + s[..w]
  }

  function Succ(i: nat, n: nat): (j: nat)
    requires i < n
    ensures j < n && j == if i + 1 == n then 0 else i + 1
  {
    (i + 1) % n
  }

  lemma RingPush<T>(s: seq<T>, r: nat, w: nat, x: T)
    requires r < |s| && w < |s| && Succ(w, |s|) != r
    ensures Ring(s[w := x], r, Succ(w, |s|)) == Ring(s, r, w) + [x]
  {
  }

  lemma RingPop<T>(s: seq<T>, r: nat, w: nat)
    requires r < |s| && w < |s| && r != w
    ensures Ring(s, r, w) == [s[r]] + Ring(s, Succ(r, |s|), w)
  {
  }

  /** The first element of a ring moved behind what came before it */
  lemma RingShift<T>(c: seq<T>, s: seq<T>, r: nat, w: nat, was: seq<T>)
    requires r < |s| && w < |s| && r != w && c + Ring(s, r, w) == was
    ensures c + [s[r]] + Ring(s, Succ(r, |s|), w) == was && |Ring(s, r, w)| == |Ring(s, Succ(r, |s|), w)| + 1 &&
            |c| < |was|
  {
    RingPop(s, r, w);
  }

  /** The ring is full exactly when one more element would make it look empty. */
  lemma RingFull<T>(s: seq<T>, r: nat, w: nat)
    requires r < |s| && w < |s|
    ensures Succ(w, |s|) == r <==> |Ring(s, r, w)| == |s| - 1
    ensures r == w <==> Ring(s, r, w) == []
  {
  }

  const MAX: int := 0x4000_0000

  class Queue<T(0)> {
    var nextwrite: nat
    var nextread: nat
    var data: array<T>

    ghost predicate Valid()
      reads this
    {
      0 < data.Length <= 2 * MAX && nextwrite < data.Length && nextread < data.Length
    }

    ghost function Contents(): (q: seq<T>)
      requires Valid()
      reads this, data
      ensures |q| < data.Length
    {
      Ring(data[..], nextread, nextwrite)
    }

    predicate Full()
      requires Valid()
      reads this
    {
      Succ(nextwrite, data.Length) == nextread
    }

    /** q_create */
    constructor (size: nat)
      requires 0 < size <= 2 * MAX
      ensures Valid() && fresh(data) && data.Length == size && Contents() == []
    {
      data := new T[size];
      nextread, nextwrite := 0, 0;
    }

    /** q_empty */
    predicate Empty()
      reads this
    {
      nextwrite == nextread
    }

    lemma EmptyIs()
      requires Valid()
      ensures Empty() <==> Contents() == []
      ensures Full() <==> |Contents()| == data.Length - 1
    {
      RingFull(data[..], nextread, nextwrite);
    }

    /** The size q_grow settles on; it doubles until it suffices and does not overflow. */
    method NewSize(target: nat) returns (nsize: nat)
      requires Valid() && target <= MAX
      ensures nsize >= target && nsize >= data.Length && nsize <= 2 * MAX &&
              (data.Length < target ==> nsize >= 2 * data.Length)
      ensures nsize == data.Length || nsize < 2 * target
    {
      nsize := data.Length;
      while nsize < target
        invariant data.Length <= nsize <= 2 * MAX && (nsize == data.Length || 2 * data.Length <= nsize < 2 * target)
        decreases target - nsize
      {
        nsize := nsize * 2;
        assert 0 < nsize < 2 * target;
      }
    }

    /** q_grow */
    method Grow(target: nat, noMem: bool) returns (ok: bool)
      requires Valid() && data.Length < target <= MAX
      modifies this
      ensures Valid() && ok == !noMem && Contents() == old(Contents())
      ensures if ok
                then fresh(data) && data.Length >= target && data.Length >= 2 * old(data.Length) &&
                nextread == 0 else unchanged(this)
      decreases 1
    {
      hide Ring, Succ;
      var olddata, onr, onw := data, nextread, nextwrite;
      var nsize := NewSize(target);
      if noMem { return false; }
      data := new T[nsize];
      nextread, nextwrite := 0, 0;
      ghost var s, was := olddata[..], old(Contents());
      var i := onr;
      EmptyIs();
      while i != onw
        invariant 0 <= i < |s| && olddata[..] == s && Valid() && nextread == 0 && data.Length == nsize && fresh(data) &&
                  data != olddata
        invariant Contents() + Ring(s, i, onw) == was
        decreases |Ring(s, i, onw)|
      {
        RingShift(Contents(), s, i, onw, was);
        EmptyIs();
        var done := AddTail(olddata[i], noMem);
        assert done;
        i := Succ(i, olddata.Length);
      }
      RingFull(s, i, onw);
      assert Contents() + [] == Contents();
      return true;
    }

    /** q_addtail */
    method AddTail(x: T, noMem: bool) returns (ok: bool)
      requires Valid() && (Full() ==> data.Length < MAX)
      modifies this, data
      ensures Valid() && ok == !(old(Full()) && noMem)
      ensures Contents() == if ok then old(Contents()) + [x] else old(Contents())
      ensures if old(Full()) && ok then fresh(data) && data.Length > old(data.Length)
                else data == old(data) && nextread == old(nextread)
      decreases if Full() then 2 else 0
    {
      var nextnext := Succ(nextwrite, data.Length);
      if nextnext == nextread {
        ok := Grow(data.Length + 1, noMem);
        if !ok { return; }
        nextnext := Succ(nextwrite, data.Length);
        EmptyIs();
      }
      assert nextnext != nextread;
      RingPush(data[..], nextread, nextwrite, x);
      data[nextwrite] := x;
      nextwrite := nextnext;
      return true;
    }

    /** q_remhead */
    method RemHead() returns (x: T)
      requires Valid() && !Empty()
      modifies `nextread
      ensures Valid() && data == old(data) && [x] + Contents() == old(Contents())
    {
      RingPop(data[..], nextread, nextwrite);
      x := data[nextread];
      nextread := Succ(nextread, data.Length);
    }

    /** q_preallocate */
    method Preallocate(size: nat, noMem: bool) returns (ok: bool)
      requires Valid() && size <= MAX
      modifies this
      ensures Valid() && Contents() == old(Contents()) && ok == !(size > old(data.Length) && noMem)
      ensures ok ==> data.Length >= size
      ensures size <= old(data.Length) || !ok ==> unchanged(this)
      ensures size > old(data.Length) && ok ==> fresh(data)
    {
      ok := true;
      if size > data.Length { ok := Grow(size, noMem); }
    }
  }

  /** Room for n elements takes a size of n + 1: after q_preallocate(n) on a queue it makes exactly that large, the
      n-th q_addtail allocates again. */
  lemma PreallocatedShort<T>(s: seq<T>, r: nat, w: nat, n: nat)
    requires n > 0 && |s| == n && r < |s| && w < |s| && |Ring(s, r, w)| == n - 1
    ensures Succ(w, |s|) == r
  {
    RingFull(s, r, w);
  }
}
