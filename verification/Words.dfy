/** Bytes and the big-endian 32-bit words that the MIPS kernel overlays on them. */
module Words {

  type byte = x: int | 0 <= x < 0x100
  type u16 = x: int | 0 <= x < 0x1_0000
  type u32 = x: int | 0 <= x < 0x1_0000_0000

  type i32 = x: int | -0x8000_0000 <= x < 0x8000_0000

  const U32: nat := 0x1_0000_0000

  function Min(a: nat, b: nat): nat { if a < b then a else b }

  function Max(a: nat, b: nat): nat { if a < b then b else a }

  /** An integer cut to 32 bits */
  function ToU32(a: int): (u: nat)
    ensures u < U32
  {
    a % U32
  }

  lemma Unwrapped(a: int)
    requires 0 <= a < U32
    ensures ToU32(a) == a
  {
  }

  lemma Wrapped(a: int)
    requires a < 0 && -a <= U32
    ensures ToU32(a) == U32 + a
  {
  }

  /** The int with these 32 bits */
  function ToInt(u: nat): (n: i32)
    requires u < U32
  {
    if u < 0x8000_0000 then u else u - U32
  }

  /** Division as C does it, toward zero */
  function CDiv(a: int, b: int): int
    requires b > 0
  {
    if a >= 0 then a / b else -((-a) / b)
  }

  /** The remainder that goes with it, of the sign of a */
  function CMod(a: int, b: int): int
    requires b > 0
  {
    if a >= 0 then a % b else -((-a) % b)
  }

  /** 2 to the n */
  function Two(n: nat): (t: nat)
    ensures t >= 1
  {
    if n == 0 then 1 else 2 * Two(n - 1)
  }

  lemma WordWidth()
    ensures Two(32) == U32
  {
    assert Two(8) == 256;
    assert Two(16) == 65536;
    assert Two(24) == 0x100_0000;
  }

  function Pack(b0: byte, b1: byte, b2: byte, b3: byte): u32 {
    ((b0 * 0x100 + b1) * 0x100 + b2) * 0x100 + b3
  }

  function Unpack(w: u32): (b: seq<byte>)
    ensures |b| == 4 && Pack(b[0], b[1], b[2], b[3]) == w
  {
    var high, mid := w / 0x1_0000, w / 0x100;
    assert mid / 0x100 == high;
    [high / 0x100, high % 0x100, mid % 0x100, w % 0x100]
  }

  /** A byte buffer read as an array of 32-bit words. */
  function ToWords(b: seq<byte>): (ws: seq<u32>)
    requires |b| % 4 == 0
    ensures 4 * |ws| == |b|
  {
    if b == [] then [] else [Pack(b[0], b[1], b[2], b[3])] + ToWords(b[4..])
  }

  /** An array of 32-bit words written out as bytes. */
  function ToBytes(ws: seq<u32>): (b: seq<byte>)
    ensures |b| == 4 * |ws|
  {
    if ws == [] then [] else Unpack(ws[0]) + ToBytes(ws[1..])
  }

  lemma {:induction false} WordsRoundTrip(ws: seq<u32>)
    ensures ToWords(ToBytes(ws)) == ws
  {
    if ws != [] {
      WordsRoundTrip(ws[1..]);
      assert ToBytes(ws)[4..] == ToBytes(ws[1..]);
    }
  }

  function Zeros(n: nat): (z: seq<byte>)
    ensures |z| == n && forall k :: 0 <= k < n ==> z[k] == 0
  {
    seq(n, _ => 0)
  }

  function NullWords(n: nat): (z: seq<u32>)
    ensures |z| == n && forall k :: 0 <= k < n ==> z[k] == 0
  {
    seq(n, _ => 0)
  }

  lemma {:induction false} ZeroWords(n: nat)
    ensures |ToWords(Zeros(4 * n))| == n
    ensures forall k :: 0 <= k < n ==> ToWords(Zeros(4 * n))[k] == 0
  {
    if n > 0 {
      ZeroWords(n - 1);
      assert Zeros(4 * n)[4..] == Zeros(4 * (n - 1));
    }
  }
}
