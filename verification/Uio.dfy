/** Model of kern/userprog/uio.c for kernel-space buffers. */
module Uio {
  import opened Words

  /** s with the bytes from at on replaced by d */
  function Splice(s: seq<byte>, at: nat, d: seq<byte>): (r: seq<byte>)
    requires at + |d| <= |s|
    ensures |r| == |s|
    ensures forall k :: 0 <= k < |s| ==> r[k] == if at <= k < at + |d| then d[k - at] else s[k]
  {
    seq(|s|, k requires 0 <= k < |s| => if at <= k < at + |d| then d[k - at] else s[k])
  }

  lemma SpliceSplice(s: seq<byte>, at: nat, d: seq<byte>, e: seq<byte>)
    requires at + |d| + |e| <= |s|
    ensures Splice(Splice(s, at, d), at + |d|, e) == Splice(s, at, d + e)
  {
  }

  /** Copying src[a..b] and then src[b..c] behind it is copying src[a..c]. */
  lemma SpliceMore(s: seq<byte>, at: nat, src: seq<byte>, a: nat, b: nat, c: nat)
    requires a <= b <= c <= |src| && at + (c - a) <= |s|
    ensures Splice(Splice(s, at, src[a..b]), at + (b - a), src[b..c]) == Splice(s, at, src[a..c])
  {
    SpliceSplice(s, at, src[a..b], src[b..c]);
    assert src[a..b] + src[b..c] == src[a..c];
  }

  lemma ZerosMore(s: seq<byte>, at: nat, m: nat, n: nat)
    requires at + m + n <= |s| && n <= 16
    ensures Splice(Splice(s, at, Zeros(m)), at + m, ZEROS[0..n]) == Splice(s, at, Zeros(m + n))
  {
  }

  /** n bytes have been copied between memory at base and the buffer at at, out of memory when writing. */
  ghost predicate Copied(write: bool, mem: seq<byte>, base: nat, buf: seq<byte>, at: nat, n: nat, mem': seq<byte>,
                         out: seq<byte>) {
    && base + n <= |mem| && at + n <= |buf|
    && if write then mem' == mem && out == Splice(buf, at, mem[base..base + n])
       else out == buf && mem' == Splice(mem, base, buf[at..at + n])
  }

  lemma CopiedNone(write: bool, mem: seq<byte>, base: nat, buf: seq<byte>, at: nat)
    requires base <= |mem| && at <= |buf|
    ensures Copied(write, mem, base, buf, at, 0, mem, buf)
  {
  }

  lemma CopiedMore(write: bool, mem: seq<byte>, base: nat, buf: seq<byte>, at: nat, n: nat, mem1: seq<byte>,
                   out1: seq<byte>,
                   m: nat, mem2: seq<byte>, out2: seq<byte>)
    requires Copied(write, mem, base, buf, at, n, mem1, out1) &&
             Copied(write, mem1, base + n, out1, at + n, m, mem2, out2)
    ensures Copied(write, mem, base, buf, at, n + m, mem2, out2)
  {
    hide Splice;
    if write {
      SpliceMore(buf, at, mem, base, base + n, base + n + m);
    } else {
      SpliceMore(mem, base, buf, at, at + n, at + n + m);
    }
  }

  lemma CopiedSizes(write: bool, mem: seq<byte>, base: nat, buf: seq<byte>, at: nat, n: nat, mem': seq<byte>,
                    out: seq<byte>)
    requires Copied(write, mem, base, buf, at, n, mem', out)
    ensures |mem'| == |mem| && |out| == |buf|
  {
  }

  /** A residue of resid after n bytes more, in 32 bits */
  function Less(resid: nat, n: nat): nat
    requires n < U32
  {
    if n <= resid then resid - n else resid - n + U32
  }

  /** How many bytes uiomove moves. */
  function Taken(n: nat, iovlen: nat, resid: nat): nat {
    if resid == 0 then 0 else Min(n, iovlen)
  }

  lemma LessNone(resid: nat)
    ensures Less(resid, 0) == resid
  {
  }

  lemma LessMore(resid: nat, a: nat, b: nat)
    requires resid < U32 && a + b < U32
    ensures Less(Less(resid, a), b) == Less(resid, a + b) && Less(resid, a) < U32
  {
  }

  /** uiomove's loop has moved done of n bytes: all of them, none, or all the iovec held. */
  predicate MoveSoFar(n: nat, iovlen: nat, resid: nat, left: nat, done: nat) {
    done + left == n && done <= iovlen && (done == 0 || (resid > 0 && (left == 0 || done == iovlen)))
  }

  predicate Movable(n: nat, iovlen: nat, resid: nat) {
    n == 0 || resid == 0 || n <= iovlen || resid == iovlen
  }

  lemma MoveEnds(n: nat, iovlen: nat, resid: nat, left: nat, done: nat)
    requires MoveSoFar(n, iovlen, resid, left, done) && iovlen < U32 && resid < U32
    ensures left == 0 || Less(resid, done) == 0 ==> Movable(n, iovlen, resid) && done == Taken(n, iovlen, resid)
    ensures left > 0 && Less(resid, done) > 0 && done == iovlen ==> !Movable(n, iovlen, resid)
    ensures left > 0 && Less(resid, done) > 0 && done < iovlen ==> done == 0 && resid > 0
  {
  }

  /** Within the residue, or when the iovec holds no more, uiomove moves as much as the residue allows. */
  lemma MoveExact(n: nat, iovlen: nat, resid: nat)
    requires resid <= iovlen < U32
    ensures Movable(n, iovlen, resid) && Taken(n, iovlen, resid) == Min(n, resid) <==>
              resid == 0 || n <= resid || resid == iovlen
  {
  }

  predicate StopsAtResidue(n: nat, iovlen: nat, resid: nat) {
    n <= resid || resid == iovlen || resid % 16 == 0
  }

  /** How many bytes uiomovezeros moves. */
  function Zeroed(n: nat, iovlen: nat, resid: nat): nat {
    if StopsAtResidue(n, iovlen, resid) then Min(n, resid) else Min(n, iovlen)
  }

  /** Where uiomovezeros stands with left bytes to go: at the residue, short of it, or past it. */
  predicate ZerosSoFar(n: nat, iovlen: nat, resid: nat, left: nat, done: nat) {
    && left <= n && done <= iovlen && (left > 0 ==> (n - left) % 16 == 0)
    && (done == n - left || (done == resid && done < n - left))
    && (done > resid ==> !StopsAtResidue(n, iovlen, resid))
    && (done < n - left ==> StopsAtResidue(n, iovlen, resid))
  }

  lemma ZerosBegin(n: nat, iovlen: nat, resid: nat)
    ensures ZerosSoFar(n, iovlen, resid, n, 0) && Less(resid, 0) == resid
  {
  }

  lemma ZerosStep(n: nat, iovlen: nat, resid: nat, left: nat, done: nat, amt: nat, iovlen': nat, resid': nat)
    requires ZerosSoFar(n, iovlen, resid, left, done) && left > 0 && amt == Min(16, left)
    requires resid <= iovlen < U32 && iovlen' + done == iovlen && resid' == Less(resid, done)
    ensures Movable(amt, iovlen', resid') ==>
              ZerosSoFar(n, iovlen, resid, left - amt, done + Taken(amt, iovlen', resid'))
    ensures Taken(amt, iovlen', resid') <= amt
    ensures !Movable(amt, iovlen', resid') ==> n > iovlen && !StopsAtResidue(n, iovlen, resid)
  {
  }

  lemma ZerosEnd(n: nat, iovlen: nat, resid: nat, done: nat)
    requires ZerosSoFar(n, iovlen, resid, 0, done) && resid <= iovlen < U32
    ensures n <= iovlen || StopsAtResidue(n, iovlen, resid)
    ensures done == Zeroed(n, iovlen, resid)
    ensures Less(resid, done) <= iovlen - done <==> StopsAtResidue(n, iovlen, resid)
  {
  }

  const ZEROS: seq<byte> := Zeros(16)

  lemma SpliceNone(s: seq<byte>, at: nat)
    requires at <= |s|
    ensures Splice(s, at, Zeros(0)) == s
  {
  }

  /** struct uio with one iovec: mem is the memory the iovec points into, base its current position. */
  class Uio {
    var mem: seq<byte>
    var base: nat
    var iovlen: nat
    var offset: nat
    var resid: nat
    const write: bool

    /** The iovec lies in memory, and its length and the residue are 32-bit sizes. */
    ghost predicate InMemory()
      reads this
    {
      base + iovlen <= |mem| && iovlen < U32 && resid < U32
    }

    /** The residue is no more than the iovec holds. */
    ghost predicate Valid()
      reads this
    {
      InMemory() && resid <= iovlen
    }

    /** mk_kuio over a whole buffer */
    constructor (buf: seq<byte>, pos: nat, write: bool)
      requires |buf| < U32
      ensures Valid() && mem == buf && base == 0 && iovlen == |buf|
      ensures offset == pos && resid == |buf| && this.write == write
    {
      mem := buf;
      base := 0;
      iovlen := |buf|;
      offset := pos;
      resid := |buf|;
      this.write := write;
    }

    /** n more bytes have gone through since the state given. */
    ghost predicate Advanced(base0: nat, iovlen0: nat, offset0: nat, resid0: nat, n: nat)
      reads this
    {
      base == base0 + n && iovlen + n == iovlen0 && offset == offset0 + n && resid + n == resid0
    }

    /** As Advanced, with a residue that wraps when n is more than it was. */
    ghost predicate Stepped(base0: nat, iovlen0: nat, offset0: nat, resid0: nat, n: nat)
      reads this
    {
      n < U32 && base == base0 + n && iovlen + n == iovlen0 && offset == offset0 + n && resid == Less(resid0, n)
    }

    /** One pass of uiomove's loop: a memmove and the pointer updates. */
    method CopyRun(buf: seq<byte>, at: nat, size: nat) returns (out: seq<byte>)
      requires InMemory() && at + size <= |buf| && size <= iovlen
      modifies this
      ensures InMemory() && Stepped(old(base), old(iovlen), old(offset), old(resid), size)
      ensures Copied(write, old(mem), old(base), buf, at, size, mem, out)
    {
      out := buf;
      if write {
        out := Splice(buf, at, mem[base..base + size]);
      } else {
        mem := Splice(mem, base, buf[at..at + size]);
      }
      base, iovlen, resid, offset := base + size, iovlen - size, Less(resid, size), offset + size;
    }

    /** uiomove between buf[at..at+n] and the iovec; the new buffer is returned. It panics exactly when a residue
        is left that the iovec cannot hold. While there is a residue it moves all it is asked to, so that it moves
        no more than the residue exactly when n is no more, or the iovec holds no more. */
    method Move(buf: seq<byte>, at: nat, n: nat) returns (out: seq<byte>, ok: bool)
      requires InMemory() && at + n <= |buf|
      modifies this
      ensures ok <==> Movable(n, old(iovlen), old(resid))
      ensures ok ==>
                InMemory() &&
                Stepped(old(base), old(iovlen), old(offset), old(resid), Taken(n, old(iovlen), old(resid)))
      ensures ok ==> Copied(write, old(mem), old(base), buf, at, Taken(n, old(iovlen), old(resid)), mem, out)
    {
      hide Copied, Less, Taken, Movable;
      out := buf;
      var ptr, left := at, n;
      ghost var done := 0;
      LessNone(resid);
      CopiedNone(write, mem, base, buf, at);
      while left > 0 && resid > 0
        invariant 0 <= left && 0 <= done && MoveSoFar(n, old(iovlen), old(resid), left, done)
        invariant ptr == at + done && |out| == |buf| && |mem| == |old(mem)|
        invariant InMemory() && Stepped(old(base), old(iovlen), old(offset), old(resid), done)
        invariant Copied(write, old(mem), old(base), buf, at, done, mem, out)
        decreases left
      {
        MoveEnds(n, old(iovlen), old(resid), left, done);
        var size := Min(iovlen, left);
        if size == 0 {
          return out, false;
        }
        LessMore(old(resid), done, size);
        ghost var mem1, out1 := mem, out;
        out := CopyRun(out, ptr, size);
        CopiedMore(write, old(mem), old(base), buf, at, done, mem1, out1, size, mem, out);
        CopiedSizes(write, mem1, old(base) + done, out1, ptr, size, mem, out);
        ptr, left := ptr + size, left - size;
        done := done + size;
      }
      MoveEnds(n, old(iovlen), old(resid), left, done);
      ok := true;
    }

    /** uiomove of no more than the residue, or from an iovec that holds no more. */
    method MoveWithin(buf: seq<byte>, at: nat, n: nat) returns (out: seq<byte>)
      requires Valid() && at + n <= |buf|
      requires n <= resid || resid == iovlen
      modifies this
      ensures Valid() && Advanced(old(base), old(iovlen), old(offset), old(resid), Min(n, old(resid)))
      ensures write ==> mem == old(mem) && out == Splice(buf, at, old(mem)[old(base)..base])
      ensures !write ==> out == buf && mem == Splice(old(mem), old(base), buf[at..at + Min(n, old(resid))])
    {
      hide Splice;
      var ok;
      out, ok := Move(buf, at, n);
    }

    /** uiomovezeros, sixteen bytes at a time: for a uio whose residue is too small it stops at the residue
        exactly when the residue is a multiple of sixteen or all the iovec holds, and otherwise goes on to the end of
        the iovec. */
    method MoveZeros(n: nat) returns (ok: bool)
      requires Valid() && !write
      modifies this
      ensures ok <==> n <= old(iovlen) || StopsAtResidue(n, old(iovlen), old(resid))
      ensures ok ==>
                InMemory() &&
                Stepped(old(base), old(iovlen), old(offset), old(resid), Zeroed(n, old(iovlen), old(resid)))
      ensures ok ==> mem == Splice(old(mem), old(base), Zeros(Zeroed(n, old(iovlen), old(resid))))
      ensures ok ==> (Valid() <==> StopsAtResidue(n, old(iovlen), old(resid)))
    {
      hide Splice, Zeros, Less, Taken, Movable, StopsAtResidue, ZerosSoFar, Zeroed;
      var left := n;
      ghost var done := 0;
      ZerosBegin(n, iovlen, resid);
      assert Splice(mem, base, Zeros(0)) == mem by { SpliceNone(mem, base); }
      while left > 0
        invariant 0 <= left <= n && 0 <= done <= old(iovlen) && |mem| == |old(mem)|
        invariant InMemory() && Stepped(old(base), old(iovlen), old(offset), old(resid), done)
        invariant ZerosSoFar(n, old(iovlen), old(resid), left, done)
        invariant mem == Splice(old(mem), old(base), Zeros(done))
      {
        var amt := Min(16, left);
        ZerosStep(n, old(iovlen), old(resid), left, done, amt, iovlen, resid);
        ghost var p := base;
        var _, moved := Move(ZEROS, 0, amt);
        if !moved {
          return false;
        }
        ZerosMore(old(mem), old(base), done, base - p);
        LessMore(old(resid), done, base - p);
        done := done + (base - p);
        left := left - amt;
      }
      ZerosEnd(n, old(iovlen), old(resid), done);
      ok := true;
    }
  }
}
