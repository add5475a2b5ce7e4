/** Model of kern/lib/bitmap.c: an array of bits packed into bytes. */
module Bitmap {
  import opened Words

  const BITS_PER_WORD: nat := 8
  const WORD_ALLBITS: byte := 0xff

  /** (x & (1 << j)) != 0 */
  predicate Bit(x: nat, j: nat) {
    if j == 0 then x % 2 == 1 else Bit(x / 2, j - 1)
  }

  lemma LowBit(y: nat, z: nat, b: nat)
    requires y == 2 * z + b && b < 2
    ensures forall k: nat :: Bit(y, k) == if k == 0 then b == 1 else Bit(z, k - 1)
  {
    assert y / 2 == z && y % 2 == b;
  }

  /** x | (1 << j), for a w-bit word x */
  function Or(x: nat, j: nat, w: nat): (y: nat)
    requires x < Two(w) && j < w
    ensures y < Two(w)
    ensures forall k: nat :: Bit(y, k) == (k == j || Bit(x, k))
  {
    LowBit(x, x / 2, x % 2);
    if j == 0 then
      var y := 2 * (x / 2) + 1;
      LowBit(y, x / 2, 1);
      y
    else
      var z := Or(x / 2, j - 1, w - 1);
      var y := 2 * z + x % 2;
      LowBit(y, z, x % 2);
      y
  }

  /** x & ~(1 << j), for a w-bit word x */
  function AndNot(x: nat, j: nat, w: nat): (y: nat)
    requires x < Two(w) && j < w
    ensures y < Two(w)
    ensures forall k: nat :: Bit(y, k) == (k != j && Bit(x, k))
  {
    LowBit(x, x / 2, x % 2);
    if j == 0 then
      var y := 2 * (x / 2);
      LowBit(y, x / 2, 0);
      y
    else
      var z := AndNot(x / 2, j - 1, w - 1);
      var y := 2 * z + x % 2;
      LowBit(y, z, x % 2);
      y
  }

  /** All the bits of the all-ones word are set. */
  lemma {:induction false} AllOnes(w: nat, k: nat)
    requires k < w
    ensures Bit(Two(w) - 1, k)
  {
    assert (Two(w) - 1) / 2 == Two(w - 1) - 1;
    if k > 0 { AllOnes(w - 1, k - 1); }
  }

  /** Any other w-bit word has a clear bit. */
  lemma {:induction false} HasClear(x: nat, w: nat) returns (k: nat)
    requires x < Two(w) - 1
    ensures k < w && !Bit(x, k)
  {
    if x % 2 == 0 {
      k := 0;
    } else {
      var j := HasClear(x / 2, w - 1);
      k := j + 1;
    }
  }

  lemma ByteWidth()
    ensures Two(8) == 0x100
  {
    assert Two(4) == 16;
  }

  /** Bit number b of a byte buffer: bitmap_translate picks the byte and the mask. */
  predicate BitAt(s: seq<byte>, b: nat)
    requires b < BITS_PER_WORD * |s|
  {
    Bit(s[b / BITS_PER_WORD], b % BITS_PER_WORD)
  }

  /** Changing one bit of one byte changes exactly that bit of the buffer. */
  lemma BitSet(s: seq<byte>, t: seq<byte>, i: nat, on: bool)
    requires i < BITS_PER_WORD * |s| && |t| == |s| && t == s[i / BITS_PER_WORD := t[i / BITS_PER_WORD]]
    requires forall k: nat :: Bit(t[i / BITS_PER_WORD], k) == if k == i % BITS_PER_WORD then on
               else Bit(s[i / BITS_PER_WORD], k)
    ensures forall b :: 0 <= b < BITS_PER_WORD * |s| ==> BitAt(t, b) == if b == i then on else BitAt(s, b)
  {
    forall b | 0 <= b < BITS_PER_WORD * |s| ensures BitAt(t, b) == if b == i then on else BitAt(s, b) {
      if b / BITS_PER_WORD == i / BITS_PER_WORD { assert b % 8 == i % 8 ==> b == i; }
    }
  }

  /** bitmap_alloc's search of one word; its fall-through assertion cannot be reached. */
  method FirstClear(x: byte) returns (offset: nat)
    requires x != WORD_ALLBITS
    ensures offset < BITS_PER_WORD && !Bit(x, offset) && forall k: nat :: k < offset ==> Bit(x, k)
  {
    ByteWidth();
    ghost var clear := HasClear(x, 8);
    offset := 0;
    while offset < BITS_PER_WORD
      invariant 0 <= offset <= 8
      invariant forall k: nat :: k < offset ==> Bit(x, k)
    {
      if !Bit(x, offset) {
        return;
      }
      offset := offset + 1;
    }
    assert false;
  }

  class Bitmap {
    const nbits: nat
    const v: array<byte>

    /** bitmap_isset */
    predicate IsSet(index: nat)
      requires index < BITS_PER_WORD * v.Length
      reads v
    {
      BitAt(v[..], index)
    }

    /** The leftover bits of the last byte are in use, so that no search returns them. */
    ghost predicate Valid()
      reads v
    {
      && v.Length == (nbits + 7) / BITS_PER_WORD
      && forall b :: nbits <= b < BITS_PER_WORD * v.Length ==> BitAt(v[..], b)
    }

    /** The abstract value: one boolean a bit. */
    ghost function Bits(): (s: seq<bool>)
      requires Valid()
      reads v
      ensures |s| == nbits && forall b :: 0 <= b < nbits ==> s[b] == BitAt(v[..], b)
    {
      seq(nbits, b requires 0 <= b < nbits && v.Length == (nbits + 7) / 8 reads v => BitAt(v[..], b))
    }

    /** bitmap_create */
    constructor (n: nat)
      ensures Valid() && nbits == n && fresh(v)
      ensures Bits() == seq(n, _ => false)
    {
      var words := (n + 7) / BITS_PER_WORD;
      var a := new byte[words](_ => 0);
      nbits := n;
      v := a;
      new;
      ByteWidth();
      forall b | 0 <= b < BITS_PER_WORD * v.Length ensures !BitAt(v[..], b) { ZeroBit(b % 8); }
      if n / BITS_PER_WORD < words {
        var ix := words - 1;
        var j := n - ix * BITS_PER_WORD;
        assert 0 < j < BITS_PER_WORD;
        while j < BITS_PER_WORD
          invariant n - ix * 8 <= j <= 8
          invariant forall b :: 0 <= b < BITS_PER_WORD * v.Length ==> BitAt(v[..], b) == (n <= b < ix * 8 + j)
        {
          ghost var s := v[..];
          v[ix] := Or(v[ix], j, 8);
          BitSet(s, v[..], ix * 8 + j, true);
          j := j + 1;
        }
      }
    }

    /** bitmap_alloc: the lowest clear bit; not found is ENOSPC */
    method Alloc() returns (found: bool, index: nat)
      requires Valid()
      modifies v
      ensures Valid()
      ensures found <==> exists b :: 0 <= b < nbits && !old(Bits())[b]
      ensures found ==> index < nbits && !old(Bits())[index] && Bits() == old(Bits())[index := true]
      ensures found ==> forall b :: 0 <= b < index ==> old(Bits())[b]
      ensures !found ==> Bits() == old(Bits())
    {
      ByteWidth();
      var ix := 0;
      while ix < v.Length
        invariant 0 <= ix <= v.Length
        invariant Valid() && Bits() == old(Bits())
        invariant v[..] == old(v[..])
        invariant forall b :: 0 <= b < 8 * ix ==> BitAt(v[..], b)
      {
        if v[ix] != WORD_ALLBITS {
          var offset := FirstClear(v[ix]);
          index := ix * BITS_PER_WORD + offset;
          assert !BitAt(v[..], index);
          assert !old(Bits())[index];
          ghost var s := v[..];
          v[ix] := Or(v[ix], offset, 8);
          BitSet(s, v[..], index, true);
          found := true;
          return;
        }
        forall k | 0 <= k < 8 ensures Bit(v[ix], k) { AllOnes(8, k); }
        ix := ix + 1;
      }
      return false, 0;
    }

    /** bitmap_mark */
    method Mark(index: nat)
      requires Valid() && index < nbits && !Bits()[index]
      modifies v
      ensures Valid() && Bits() == old(Bits())[index := true]
    {
      ByteWidth();
      var ix := index / BITS_PER_WORD;
      ghost var s := v[..];
      v[ix] := Or(v[ix], index % BITS_PER_WORD, 8);
      BitSet(s, v[..], index, true);
    }

    /** bitmap_unmark */
    method Unmark(index: nat)
      requires Valid() && index < nbits && Bits()[index]
      modifies v
      ensures Valid() && Bits() == old(Bits())[index := false]
    {
      ByteWidth();
      var ix := index / BITS_PER_WORD;
      ghost var s := v[..];
      v[ix] := AndNot(v[ix], index % BITS_PER_WORD, 8);
      BitSet(s, v[..], index, false);
    }
  }

  lemma {:induction false} ZeroBit(j: nat)
    ensures !Bit(0, j)
  {
    if j > 0 { ZeroBit(j - 1); }
  }
}
