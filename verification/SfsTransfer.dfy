/** What moving bytes between a file and a buffer means, and how successive moves add up. */
module SfsTransfer {
  import opened Words
  import opened Uio
  import opened SfsState
  import opened SfsBlocks

  /** Bytes [off, off + n) of file i. */
  function FileBytes(s: Fs, i: nat, off: nat, n: nat): (r: seq<byte>)
    ensures |r| == n && forall k :: 0 <= k < n ==> r[k] == Byte(s, i, off + k)
  {
    seq<byte>(n, k requires 0 <= k < n => Byte(s, i, off + k))
  }

  /** n bytes have moved between file i at off and the buffer at base. */
  ghost predicate Transfer(s: Fs, t: Fs, own: Owner, own': Owner, i: nat, off: nat, n: nat,
                           write: bool, mem: seq<byte>, mem': seq<byte>, base: nat)
  {
    && base + n <= |mem|
    && if write then
         mem' == mem && Wrote(s, t, own, i, off, mem[base..base + n])
       else
         t == s && own' == own && mem' == Splice(mem, base, FileBytes(s, i, off, n))
  }

  lemma TransferNone(s: Fs, t: Fs, own: Owner, own': Owner, i: nat, off: nat, write: bool, mem: seq<byte>, base: nat)
    requires base <= |mem| && SameAll(s, t, own) && IsNode(own, i) && (!write ==> t == s && own' == own)
    ensures Transfer(s, t, own, own', i, off, 0, write, mem, mem, base)
  {
    hide Byte;
    assert SameBytes(s, t, i);
    assert mem == Splice(mem, base, FileBytes(s, i, off, 0));
  }

  lemma SelfTransfer(s: Fs, own: Owner, i: nat, off: nat, write: bool, mem: seq<byte>, base: nat)
    requires base <= |mem|
    ensures Transfer(s, s, own, own, i, off, 0, write, mem, mem, base)
  {
    hide Byte;
    assert mem == Splice(mem, base, FileBytes(s, i, off, 0));
  }

  lemma WroteTrans(s: Fs, t: Fs, u: Fs, own: Owner, own1: Owner, i: nat, off: nat, d: seq<byte>, e: seq<byte>)
    requires SameNodes(own, own1)
    requires Wrote(s, t, own, i, off, d) && Wrote(t, u, own1, i, off + |d|, e)
    ensures Wrote(s, u, own, i, off, d + e)
  {
    hide Byte;
    forall j: nat | IsNode(own, j) && j != i ensures SameBytes(s, u, j) {
      assert SameBytes(s, t, j) && SameBytes(t, u, j);
    }
  }

  lemma TransferTrans(s: Fs, t: Fs, u: Fs, own: Owner, own1: Owner, own2: Owner, i: nat, off: nat, m: nat, n: nat,
                      write: bool, mem: seq<byte>, mem1: seq<byte>, mem2: seq<byte>, base: nat)
    requires SameNodes(own, own1)
    requires Transfer(s, t, own, own1, i, off, m, write, mem, mem1, base)
    requires Transfer(t, u, own1, own2, i, off + m, n, write, mem1, mem2, base + m)
    ensures Transfer(s, u, own, own2, i, off, m + n, write, mem, mem2, base)
  {
    hide Byte, Wrote, Splice;
    if write {
      WroteTrans(s, t, u, own, own1, i, off, mem[base..base + m], mem[base + m..base + m + n]);
      assert mem[base..base + m] + mem[base + m..base + m + n] == mem[base..base + m + n];
    } else {
      SpliceSplice(mem, base, FileBytes(s, i, off, m), FileBytes(s, i, off + m, n));
      assert FileBytes(s, i, off, m) + FileBytes(s, i, off + m, n) == FileBytes(s, i, off, m + n);
    }
  }

  /** Rewriting part of one mapped block writes exactly those bytes of the file. */
  lemma WriteBytes(s: Fs, own: Owner, i: nat, k: nat, skip: nat, data: seq<byte>, t: Fs)
    requires Consistent(s, own) && i in s.vnodes && IsNode(own, i) && k < MAXBLOCKS && 0 < Ptr(s, i, k) < |s.disk|
    requires skip + |data| <= BLOCKSIZE
    requires t == s.(disk := s.disk[Ptr(s, i, k) := Splice(s.disk[Ptr(s, i, k)], skip, data)])
    ensures Consistent(t, own) && Frame(s, t, own, own, i) && SamePtrs(s, t, own)
    ensures Wrote(s, t, own, i, BLOCKSIZE * k + skip, data)
  {
    hide MarksOwned, PartsOwned, CacheOk, NodeAt, Ptr;
    var x := Splice(s.disk[Ptr(s, i, k)], skip, data);
    WriteData(s, own, i, k, x, t);
    forall o: nat ensures Byte(t, i, o) ==
      if BLOCKSIZE * k + skip <= o < BLOCKSIZE * k + skip + |data| then data[o - (BLOCKSIZE * k + skip)]
      else Byte(s, i, o)
    {
      if o / BLOCKSIZE == k { assert o == BLOCKSIZE * k + o % BLOCKSIZE; }
    }
  }

  /** Reading part of one mapped or unmapped block reads those bytes of the file. */
  lemma ReadBytes(s: Fs, i: nat, k: nat, skip: nat, n: nat)
    requires k < MAXBLOCKS && skip + n <= BLOCKSIZE
    ensures FileBytes(s, i, BLOCKSIZE * k + skip, n) == BlockAt(s.disk, Ptr(s, i, k))[skip..skip + n]
  {
    hide Ptr;
    var r, x := FileBytes(s, i, BLOCKSIZE * k + skip, n), BlockAt(s.disk, Ptr(s, i, k))[skip..skip + n];
    forall q | 0 <= q < n ensures r[q] == x[q] {
      assert (BLOCKSIZE * k + skip + q) / BLOCKSIZE == k && (BLOCKSIZE * k + skip + q) % BLOCKSIZE == skip + q;
    }
  }

  /** n bytes have moved, and nothing but file i's blocks has changed. */
  ghost predicate Moved(s: Fs, t: Fs, own: Owner, own': Owner, i: nat, off: nat, n: nat,
                        write: bool, mem: seq<byte>, mem': seq<byte>, base: nat)
  {
    Frame(s, t, own, own', i) && Kept(s, t, i) && Transfer(s, t, own, own', i, off, n, write, mem, mem', base)
  }

  lemma MovedNone(s: Fs, own: Owner, i: nat, off: nat, write: bool, mem: seq<byte>, base: nat)
    requires base <= |mem|
    ensures Moved(s, s, own, own, i, off, 0, write, mem, mem, base)
  {
    FrameSelf(s, own, i);
    SelfTransfer(s, own, i, off, write, mem, base);
  }

  lemma MovedTrans(s: Fs, t: Fs, u: Fs, own: Owner, own1: Owner, own2: Owner, i: nat, off: nat, m: nat, n: nat,
                   write: bool, mem: seq<byte>, mem1: seq<byte>, mem2: seq<byte>, base: nat)
    requires Moved(s, t, own, own1, i, off, m, write, mem, mem1, base)
    requires Moved(t, u, own1, own2, i, off + m, n, write, mem1, mem2, base + m)
    ensures Moved(s, u, own, own2, i, off, m + n, write, mem, mem2, base)
    ensures forall k: nat :: Ptr(t, i, k) == 0 ==> Ptr(s, i, k) == 0
  {
    hide NodeAt, Transfer, Ptr;
    PtrBeyond(s, i);
    FrameTrans(s, t, u, own, own1, own2, i);
    TransferTrans(s, t, u, own, own1, own2, i, off, m, n, write, mem, mem1, mem2, base);
  }

  /** Allocation alone moves no byte. */
  lemma NoneMoved(s: Fs, t: Fs, own: Owner, own': Owner, i: nat, off: nat, write: bool, mem: seq<byte>, base: nat)
    requires base <= |mem| && Frame(s, t, own, own', i) && Kept(s, t, i) && SameAll(s, t, own) && Consistent(t, own') &&
             i in t.vnodes
    requires !write ==> t == s && own' == own
    ensures Moved(s, t, own, own', i, off, 0, write, mem, mem, base)
  {
    hide Consistent, NodeAt, Byte;
    Live(t, own', i);
    TransferNone(s, t, own, own', i, off, write, mem, base);
  }

  /** One block written, after bmap has made sure that it is mapped. */
  lemma BlockWritten(s: Fs, mid: Fs, t: Fs, own: Owner, own1: Owner, i: nat, off: nat, k: nat, n: nat, mem: seq<byte>,
                     base: nat)
    requires Frame(s, mid, own, own1, i) && Kept(s, mid, i) && SameAll(s, mid, own) && Consistent(mid, own1) &&
             i in mid.vnodes
    requires k == off / BLOCKSIZE < MAXBLOCKS && off % BLOCKSIZE + n <= BLOCKSIZE && base + n <= |mem|
    requires 0 < Ptr(mid, i, k) < |mid.disk|
    requires t == mid.(disk := mid.disk[Ptr(mid, i, k) :=
                         Splice(mid.disk[Ptr(mid, i, k)], off % BLOCKSIZE, mem[base..base + n])])
    ensures Consistent(t, own1) && Moved(s, t, own, own1, i, off, n, true, mem, mem, base)
  {
    hide Consistent, NodeAt, Ptr, Byte, Wrote, Splice;
    Live(mid, own1, i);
    WriteBytes(mid, own1, i, k, off % BLOCKSIZE, mem[base..base + n], t);
    FrameTrans(s, mid, t, own, own1, own1, i);
    TransferNone(s, mid, own, own1, i, off, true, mem, base);
    TransferTrans(s, mid, t, own, own1, own1, i, off, 0, n, true, mem, mem, mem, base);
  }

  /** One block read, mapped or not. */
  lemma BlockRead(s: Fs, own: Owner, i: nat, off: nat, k: nat, n: nat, mem: seq<byte>, mem': seq<byte>, base: nat)
    requires k == off / BLOCKSIZE < MAXBLOCKS && off % BLOCKSIZE + n <= BLOCKSIZE && base + n <= |mem|
    requires var skip := off % BLOCKSIZE; mem' == Splice(mem, base, BlockAt(s.disk, Ptr(s, i, k))[skip..skip + n])
    ensures Moved(s, s, own, own, i, off, n, false, mem, mem', base)
  {
    hide Ptr, Byte;
    FrameSelf(s, own, i);
    ReadBytes(s, i, k, off % BLOCKSIZE, n);
  }

  lemma TransferThenSame(s: Fs, t: Fs, u: Fs, own: Owner, own1: Owner, i: nat, off: nat, n: nat,
                         mem: seq<byte>, mem': seq<byte>, base: nat)
    requires Transfer(s, t, own, own1, i, off, n, true, mem, mem', base) && SameNodes(own, own1)
    requires SameAll(t, u, own1) && Consistent(t, own1) && i in t.vnodes
    ensures Transfer(s, u, own, own1, i, off, n, true, mem, mem', base)
  {
    hide Consistent, Byte;
    Live(t, own1, i);
    assert SameBytes(t, u, i);
    forall j: nat | IsNode(own, j) && j != i ensures SameBytes(s, u, j) {
      assert SameBytes(s, t, j) && SameBytes(t, u, j);
    }
  }
}
