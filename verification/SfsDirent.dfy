/** Directory entries of SFS and what they say as a whole. */
module SfsDirent {
  import opened Words

  const DIRSIZE: nat := 64
  const NAMELEN: nat := 60

  /** A C string without its terminator. */
  type Name = n: seq<byte> | forall k :: 0 <= k < |n| ==> n[k] != 0 witness []

  datatype Dirent = Dirent(ino: u32, name: Name)
  const FREE: Dirent := Dirent(0, [])

  /** The string in a buffer: everything before the first NUL. */
  function CString(b: seq<byte>): (n: Name) {
    if b == [] || b[0] == 0 then [] else [b[0]] + CString(b[1..])
  }

  lemma {:induction false} CStringPadded(n: Name, pad: nat)
    ensures CString(n + Zeros(pad)) == n
  {
    if n == [] {
      assert pad > 0 ==> (n + Zeros(pad))[0] == 0;
    } else {
      var rest: Name := n[1..];
      CStringPadded(rest, pad);
      assert (n + Zeros(pad))[1..] == rest + Zeros(pad);
      assert n == [n[0]] + rest;
    }
  }

  /** struct sfs_dir read from its 64 bytes; the last byte of the name is forced to NUL. */
  function DirentOf(b: seq<byte>): Dirent
    requires |b| == DIRSIZE
  {
    Dirent(Pack(b[0], b[1], b[2], b[3]), CString(b[4..DIRSIZE - 1]))
  }

  function DirentBytes(e: Dirent): (b: seq<byte>)
    requires |e.name| < NAMELEN
    ensures |b| == DIRSIZE
  {
    Unpack(e.ino) + e.name + Zeros(NAMELEN - |e.name|)
  }

  lemma DirentRoundTrip(e: Dirent)
    requires |e.name| < NAMELEN
    ensures DirentOf(DirentBytes(e)) == e
  {
    var b := DirentBytes(e);
    CStringPadded(e.name, NAMELEN - 1 - |e.name|);
    assert b[4..DIRSIZE - 1] == e.name + Zeros(NAMELEN - 1 - |e.name|);
    var u := Unpack(e.ino);
    assert b[0] == u[0] && b[1] == u[1] && b[2] == u[2] && b[3] == u[3];
  }

  // ---- a directory as a sequence of slots

  /** Name n stands for inode i. */
  ghost predicate Bound(d: seq<Dirent>, n: Name, i: nat) {
    exists k :: 0 <= k < |d| && d[k].ino == i && d[k].name == n && i != 0
  }

  ghost predicate Unique(d: seq<Dirent>) {
    forall a, b :: 0 <= a < b < |d| && d[a].ino != 0 && d[b].ino != 0 ==> d[a].name != d[b].name
  }

  /** The number of entries that name inode i. */
  function Count(d: seq<Dirent>, i: nat): (c: nat)
    ensures c <= |d|
  {
    if d == [] then 0 else Count(d[..|d| - 1], i) + if d[|d| - 1].ino == i then 1 else 0
  }

  lemma {:induction false} CountPut(d: seq<Dirent>, k: nat, e: Dirent, i: nat)
    requires k < |d|
    ensures Count(d[k := e], i) == Count(d, i) - (if d[k].ino == i then 1 else 0) + (if e.ino == i then 1 else 0)
  {
    var d' := d[k := e];
    if k == |d| - 1 {
      assert d'[..|d| - 1] == d[..|d| - 1];
    } else {
      CountPut(d[..|d| - 1], k, e, i);
      assert d'[..|d| - 1] == d[..|d| - 1][k := e];
    }
  }

  lemma CountAdd(d: seq<Dirent>, e: Dirent, i: nat)
    ensures Count(d + [e], i) == Count(d, i) + if e.ino == i then 1 else 0
  {
    assert (d + [e])[..|d|] == d;
  }

  lemma {:induction false} CountSome(d: seq<Dirent>, k: nat)
    requires k < |d|
    ensures Count(d, d[k].ino) > 0
  {
    if k < |d| - 1 { CountSome(d[..|d| - 1], k); }
  }

  lemma BoundCount(d: seq<Dirent>, n: Name, i: nat)
    requires Bound(d, n, i)
    ensures Count(d, i) > 0
  {
    var k :| 0 <= k < |d| && d[k].ino == i;
    CountSome(d, k);
  }

  lemma {:induction false} CountNone(d: seq<Dirent>, i: nat) returns (k: nat)
    requires Count(d, i) > 0
    ensures k < |d| && d[k].ino == i
  {
    if d[|d| - 1].ino == i { k := |d| - 1; } else { k := CountNone(d[..|d| - 1], i); }
  }

  /** Slot k is overwritten, or added at the end. */
  function Put(d: seq<Dirent>, k: nat, e: Dirent): seq<Dirent>
    requires k <= |d|
  {
    if k < |d| then d[k := e] else d + [e]
  }

  /** Writing a new name into a free slot binds it and changes no other binding. */
  lemma PutBinds(d: seq<Dirent>, k: nat, e: Dirent)
    requires k <= |d| && (k < |d| ==> d[k].ino == 0) && e.ino != 0
    requires Unique(d) && forall i: nat :: !Bound(d, e.name, i)
    ensures Unique(Put(d, k, e))
    ensures forall n: Name, i: nat :: Bound(Put(d, k, e), n, i) <==> (n == e.name && i == e.ino) || Bound(d, n, i)
    ensures forall i: nat :: i != 0 ==> Count(Put(d, k, e), i) == Count(d, i) + if i == e.ino then 1 else 0
  {
    var d' := Put(d, k, e);
    forall n: Name, i: nat ensures Bound(d', n, i) <==> (n == e.name && i == e.ino) || Bound(d, n, i) {
      if Bound(d, n, i) {
        var m :| 0 <= m < |d| && d[m].ino == i && d[m].name == n && i != 0;
        assert d'[m] == d[m];
      }
      assert d'[k] == e;
    }
    forall a, b | 0 <= a < b < |d'| && d'[a].ino != 0 && d'[b].ino != 0 ensures d'[a].name != d'[b].name {
      if a == k { assert !Bound(d, e.name, d[b].ino); }
      if b == k { assert !Bound(d, e.name, d[a].ino); }
    }
    forall i: nat | i != 0 ensures Count(d', i) == Count(d, i) + if i == e.ino then 1 else 0 {
      if k < |d| { CountPut(d, k, e, i); } else { CountAdd(d, e, i); }
    }
  }

  lemma FreeUnbindsName(d: seq<Dirent>, k: nat, n: Name, i: nat)
    requires k < |d| && d[k].ino != 0 && Unique(d)
    ensures Bound(d[k := FREE], n, i) <==> n != d[k].name && Bound(d, n, i)
  {
    var d' := d[k := FREE];
    if n != d[k].name && Bound(d, n, i) {
      var m :| 0 <= m < |d| && d[m].ino == i && d[m].name == n && i != 0;
      assert d'[m] == d[m];
    }
  }

  /** Freeing a used slot unbinds exactly its name. */
  lemma FreeUnbinds(d: seq<Dirent>, k: nat)
    requires k < |d| && d[k].ino != 0 && Unique(d)
    ensures Unique(d[k := FREE])
    ensures forall n: Name, i: nat :: Bound(d[k := FREE], n, i) <==> n != d[k].name && Bound(d, n, i)
    ensures forall i: nat :: i != 0 ==> Count(d[k := FREE], i) == Count(d, i) - if i == d[k].ino then 1 else 0
  {
    var d' := d[k := FREE];
    forall n: Name, i: nat ensures Bound(d', n, i) <==> n != d[k].name && Bound(d, n, i) {
      FreeUnbindsName(d, k, n, i);
    }
    forall i: nat | i != 0 ensures Count(d', i) == Count(d, i) - if i == d[k].ino then 1 else 0 {
      CountPut(d, k, FREE, i);
    }
  }

  /** The bindings of d' are those of d, with n1 replaced by n2 standing for i. */
  ghost predicate Renamed(d: seq<Dirent>, d': seq<Dirent>, n1: Name, n2: Name, i: nat) {
    forall n: Name, j: nat :: Bound(d', n, j) <==> (n == n2 && j == i) || (n != n1 && Bound(d, n, j))
  }

  lemma SlotBound(d: seq<Dirent>, k: nat)
    requires k < |d| && d[k].ino != 0
    ensures Bound(d, d[k].name, d[k].ino)
  {
  }

  /** A name stands for one inode only. */
  lemma OnlyBinding(d: seq<Dirent>, k: nat)
    requires Unique(d) && k < |d| && d[k].ino != 0
    ensures forall j: nat :: Bound(d, d[k].name, j) <==> j == d[k].ino
  {
    SlotBound(d, k);
  }

  lemma PutOther(d: seq<Dirent>, k: nat, e: Dirent, m: nat)
    requires k <= |d| && (k < |d| ==> d[k].ino == 0) && m < |d| && d[m].ino != 0
    ensures m < |Put(d, k, e)| && Put(d, k, e)[m] == d[m]
  {
  }

  /** Binding a second name in a free slot and freeing the first name's slot moves the name. */
  lemma NameMoved(d: seq<Dirent>, k: nat, slot: nat, n2: Name, d2: seq<Dirent>, d3: seq<Dirent>)
    requires Unique(d) && k < |d| && d[k].ino != 0
    requires slot <= |d| && (slot < |d| ==> d[slot].ino == 0) && forall j: nat :: !Bound(d, n2, j)
    requires d2 == Put(d, slot, Dirent(d[k].ino, n2)) && k < |d2| && d3 == d2[k := FREE]
    ensures d2[k] == d[k] && slot < |d3| && d3[slot].ino == d[k].ino
    ensures Renamed(d, d3, d[k].name, n2, d[k].ino)
    ensures forall j: nat :: j != 0 ==> Count(d3, j) == Count(d, j)
  {
    hide Bound, Unique, Count;
    PutBinds(d, slot, Dirent(d[k].ino, n2));
    FreeUnbinds(d2, k);
    SlotBound(d, k);
    assert d[k].name != n2;
    forall n: Name, j: nat
      ensures Bound(d3, n, j) <==> (n == n2 && j == d[k].ino) || (n != d[k].name && Bound(d, n, j))
    {
      assert Bound(d2, n, j) <==> (n == n2 && j == d[k].ino) || Bound(d, n, j);
    }
  }
}
