/** Model of lib/libc/__printf.c, with int and long 32 bits wide. The text sent so far is
    kept in out; the argument of a conversion is a parameter. */
module Printf {
  import opened Lists
  import opened Atoi
  import opened Words

  /** Bits of a long over 3, plus 2 */
  const NUMBER_BUF_SIZE: nat := 12

  const DIGITS: string := "0123456789abcdef"

  // ---- digits

  /** The digits of n, most significant first; 0 is one digit. */
  function Digits(n: nat, b: nat): (s: string)
    requires 2 <= b <= 16
    ensures |s| > 0
    decreases n
  {
    if n < b then [DIGITS[n]] else Smaller(n, b); Digits(n / b, b) + [DIGITS[n % b]]
  }

  function CharValue(c: char): int { if '0' <= c <= '9' then (c - '0') as int else c as int - 'a' as int + 10 }

  /** The number that digits in base b denote. */
  function Number(s: string, b: nat): int {
    if s == "" then 0 else Number(s[..|s| - 1], b) * b + CharValue(s[|s| - 1])
  }

  lemma DigitChars(d: nat)
    requires d < 16
    ensures CharValue(DIGITS[d]) == d && (d < 10 ==> IsDigit(DIGITS[d]) && DigitValue(DIGITS[d]) == d)
  {
  }

  lemma NumberMore(s: string, c: char, b: nat)
    ensures Number(s + [c], b) == Number(s, b) * b + CharValue(c)
  {
    assert (s + [c])[..|s|] == s;
  }

  lemma DivMod(n: nat, b: nat)
    requires b > 0
    ensures n / b * b + n % b == n
  {
  }

  lemma DigitsMore(n: nat, b: nat)
    requires 2 <= b <= 16 && n >= b
    ensures Digits(n, b) == Digits(n / b, b) + [DIGITS[n % b]] && n / b < n
  {
    Smaller(n, b);
  }

  lemma Smaller(n: nat, b: nat)
    requires b >= 2 && n > 0
    ensures n / b < n
  {
    DivMod(n, b);
    AtLeast(n / b, 2, b);
  }

  lemma AtLeast(q: nat, a: nat, b: nat)
    requires a <= b
    ensures q * a <= q * b
  {
  }

  lemma {:induction false} DigitsDenote(n: nat, b: nat)
    requires 2 <= b <= 16
    ensures Number(Digits(n, b), b) == n
    decreases n, 1
  {
    if n < b {
      DigitChars(n);
      assert Digits(n, b)[..0] == "";
    } else {
      hide Digits, Number;
      DigitsMore(n, b);
      DivMod(n, b);
      DigitsUp(n, b, n / b, n % b);
    }
  }

  lemma DigitsUp(n: nat, b: nat, q: nat, r: nat)
    requires 2 <= b <= 16 && r < b && q < n && q * b + r == n && Digits(n, b) == Digits(q, b) + [DIGITS[r]]
    ensures Number(Digits(n, b), b) == n
    decreases n, 0
  {
    hide Digits, Number;
    DigitsDenote(q, b);
    DigitChars(r);
    NumberMore(Digits(q, b), DIGITS[r], b);
  }

  lemma {:induction false} DecimalDigits(n: nat)
    ensures AllDigits(Digits(n, 10)) && Dec(Digits(n, 10)) == n
  {
    if n < 10 {
      DigitChars(n);
      assert Digits(n, 10)[..0] == "";
    } else {
      DecimalDigits(n / 10);
      DigitChars(n % 10);
      var s := Digits(n / 10, 10);
      assert Digits(n, 10)[..|s|] == s;
    }
  }

  // ---- a field

  datatype Flags = Flags(spacing: nat, left: bool, zero: bool, alt: bool)

  function Fill(g: Flags): char { if g.zero then '0' else ' ' }

  /** A text of prefixes and digits in its field: padded with blanks before the prefixes, with zeros after them, or
      with the fill character behind. */
  function Field(g: Flags, prefix: string, prefix2: string, stuff: string): string {
    var spc := Padding(g, |prefix| + |prefix2| + |stuff|);
    if g.left then prefix + prefix2 + stuff + Rep(Fill(g), spc)
    else if g.zero then prefix + prefix2 + Rep('0', spc) + stuff
    else Rep(' ', spc) + prefix + prefix2 + stuff
  }

  function Padding(g: Flags, len: nat): nat { if g.spacing > len then g.spacing - len else 0 }

  lemma FieldWidth(g: Flags, prefix: string, prefix2: string, stuff: string)
    ensures var len := |prefix| + |prefix2| + |stuff|; |Field(g, prefix, prefix2, stuff)| == if g.spacing > len
              then g.spacing else len
  {
  }

  function SignOf(n: int): string { if n < 0 then "-" else "" }
  function Magnitude(n: int): nat { if n < 0 then -n else n }

  /** Zeros are put behind the number. */
  predicate ZeroTail(g: Flags, n: int) {
    g.left && g.zero && g.spacing > |SignOf(n)| + |Digits(Magnitude(n), 10)|
  }

  /** atoi of a number's field gives the number back exactly unless it is not 0 and zeros were put behind it. */
  lemma RoundTrip(g: Flags, n: int)
    requires -0x8000_0000 <= n < 0x8000_0000
    ensures Value(Field(g, SignOf(n), "", Digits(Magnitude(n), 10))) == n <==> n == 0 || !ZeroTail(g, n)
  {
    var d := Digits(Magnitude(n), 10);
    DecimalDigits(Magnitude(n));
    SignedMagnitude(n);
    hide Digits, Dec, Signed, Value;
    if ZeroTail(g, n) {
      LeftZero(g, n);
    } else if g.left {
      LeftBlank(g, n, d);
    } else {
      RightAligned(g, n, d);
    }
  }

  lemma LeftBlank(g: Flags, n: int, d: string)
    requires AllDigits(d) && d != "" && g.left && (g.zero ==> g.spacing <= |SignOf(n)| + |d|)
    ensures Value(Field(g, SignOf(n), "", d)) == Signed(n < 0, Dec(d))
  {
    hide Dec, Signed, Value;
    var spc := Padding(g, |SignOf(n)| + 0 + |d|);
    assert Field(g, SignOf(n), "", d) == Rep(' ', 0) + SignOf(n) + d + Rep(Fill(g), spc);
    Parsed(0, n, d, Rep(Fill(g), spc));
  }

  lemma RightAligned(g: Flags, n: int, d: string)
    requires AllDigits(d) && d != "" && !g.left
    ensures Value(Field(g, SignOf(n), "", d)) == Signed(n < 0, Dec(d))
  {
    hide Dec, Signed, Value;
    var spc := Padding(g, |SignOf(n)| + 0 + |d|);
    if g.zero {
      assert Field(g, SignOf(n), "", d) == Rep(' ', 0) + SignOf(n) + (Rep('0', spc) + d) + "";
      DecZeros(spc, d);
      Parsed(0, n, Rep('0', spc) + d, "");
    } else {
      assert Field(g, SignOf(n), "", d) == Rep(' ', spc) + SignOf(n) + d + "";
      Parsed(spc, n, d, "");
    }
  }

  /** What atoi makes of blanks, a sign, digits and something else. */
  lemma Parsed(k: nat, n: int, d: string, rest: string)
    requires AllDigits(d) && d != "" && (rest == "" || !IsDigit(rest[0]))
    ensures Value(Rep(' ', k) + SignOf(n) + d + rest) == Signed(n < 0, Dec(d))
  {
    hide SkipSpace, Dec, DigitRun, Signed;
    var t := SignOf(n) + d + rest;
    assert Rep(' ', k) + SignOf(n) + d + rest == Rep(' ', k) + t;
    assert IsDigit(d[0]) && t[0] == if n < 0 then '-' else d[0];
    SkipBlanks(k, t);
    assert d + rest == if n < 0 then t[1..] else t;
    RunStops(d, rest);
  }

  lemma SignedMagnitude(n: int)
    requires -0x8000_0000 <= n < 0x8000_0000
    ensures Signed(n < 0, Magnitude(n)) == n
  {
  }

  /** Left-aligned with zeros the padding becomes part of the number: it survives exactly if it is 0. */
  lemma LeftZero(g: Flags, n: int)
    requires -0x8000_0000 <= n < 0x8000_0000 && ZeroTail(g, n)
    ensures Value(Field(g, SignOf(n), "", Digits(Magnitude(n), 10))) == n <==> n == 0
  {
    var d := Digits(Magnitude(n), 10);
    DecimalDigits(Magnitude(n));
    var spc := Padding(g, |SignOf(n)| + 0 + |d|);
    var z := d + Rep('0', spc);
    DecShift(d, spc);
    assert Field(g, SignOf(n), "", d) == Rep(' ', 0) + SignOf(n) + z + "";
    Parsed(0, n, z, "");
    ShiftMoves(Magnitude(n), spc);
    SignedSame(n, Magnitude(n) * Pow10(spc));
  }

  lemma SignedSame(n: int, v: nat)
    requires -0x8000_0000 <= n < 0x8000_0000
    ensures Signed(n < 0, v) == n <==> v % U32 == Magnitude(n) % U32
  {
  }

  /** Multiplying by a power of ten changes every value but 0 modulo 2^32, since 10^k - 1 is odd. */
  lemma ShiftMoves(v: nat, k: nat)
    requires v < U32 && k > 0
    ensures v * Pow10(k) % U32 == v % U32 <==> v == 0
  {
    var j := 5 * Pow10(k - 1) - 1;
    assert Pow10(k) - 1 == 2 * j + 1;
    if v * Pow10(k) % U32 == v % U32 {
      var p := v * Pow10(k);
      var q := p / U32 - v / U32;
      assert p - v == U32 * q;
      WordWidth();
      assert v * (2 * j + 1) == v * (Pow10(k) - 1) == p - v;
      hide Pow10, Two;
      var r := OddFactor(v, j, 32, q);
    }
  }

  lemma {:induction false} OddFactor(v: int, j: int, n: nat, q: int) returns (p: int)
    requires v * (2 * j + 1) == Two(n) * q
    ensures v == Two(n) * p
    decreases n
  {
    if n == 0 { return v; }
    var t := Two(n - 1);
    var u := t * q - j * v;
    assert v == 2 * u by { Halve(v, j, t, q); }
    assert u * (2 * j + 1) == t * q by { HalveAgain(v, u, j, t, q); }
    p := OddFactor(u, j, n - 1, q);
    assert 2 * (t * p) == 2 * t * p;
  }

  lemma Halve(v: int, j: int, t: int, q: int)
    requires v * (2 * j + 1) == 2 * t * q
    ensures v == 2 * (t * q - j * v)
  {
    assert v * (2 * j + 1) == 2 * (j * v) + v;
    assert 2 * t * q == 2 * (t * q);
  }

  lemma HalveAgain(v: int, u: int, j: int, t: int, q: int)
    requires v == 2 * u && v * (2 * j + 1) == 2 * t * q
    ensures u * (2 * j + 1) == t * q
  {
    assert 2 * u * (2 * j + 1) == 2 * (u * (2 * j + 1));
    assert 2 * t * q == 2 * (t * q);
  }

  // ---- the code

  const DEFAULT := Flags(0, false, false, false)

  predicate IsModifier(ch: char) { ch in "#-ql0123456789" }

  /** What a modifier character does; l and q change nothing while long is as wide as int. */
  function Modified(g: Flags, ch: char): Flags
    requires IsModifier(ch)
  {
    if ch == '#' then g.(alt := true)
    else if ch == '-' then g.(left := true)
    else if ch == 'l' || ch == 'q' then g
    else if ch == '0' && g.spacing == 0 then g.(zero := true)
    else g.(spacing := g.spacing * 10 + DigitValue(ch))
  }

  function Modifiers(g: Flags, s: string): Flags
    requires forall i :: 0 <= i < |s| ==> IsModifier(s[i])
  {
    if s == "" then g else Modified(Modifiers(g, s[..|s| - 1]), s[|s| - 1])
  }

  predicate IsInteger(ch: char) { ch in "doupx" }

  function BaseOf(ch: char): nat { if ch == 'o' then 8 else if ch == 'x' || ch == 'p' then 16 else 10 }

  function PrefixOf(g: Flags, ch: char): string {
    if !(g.alt || ch == 'p') then "" else if BaseOf(ch) == 16 then "0x" else if BaseOf(ch) == 8 then "0" else ""
  }

  /** An argument of printf: an int, a string, or a null pointer for one. */
  datatype Arg = Int(n: int) | Str(s: string) | Null

  /** The argument a conversion character takes from the list; a string holds no NUL. */
  predicate Takes(ch: char, arg: Arg) {
    && (IsInteger(ch) || ch == 'c' ==> arg.Int? && -0x8000_0000 <= arg.n < 0x8000_0000)
    && (ch == 's' ==> arg.Null? || (arg.Str? && '\0' !in arg.s))
  }

  /** The text, a C string of at most one character, that %c makes of an int. */
  function OneChar(n: int): string {
    if n % 0x100 == 0 then "" else [(n % 0x100) as char]
  }

  /** The text of one conversion; a character that is no conversion stands for itself. */
  function Converted(g: Flags, ch: char, arg: Arg): string
    requires Takes(ch, arg)
  {
    if ch == 'd' then Field(g, SignOf(arg.n), PrefixOf(g, ch), Digits(Magnitude(arg.n), 10))
    else if IsInteger(ch) then Field(g, "", PrefixOf(g, ch), Digits(arg.n % U32, BaseOf(ch)))
    else if ch == 's' then Field(g, "", "", if arg.Null? then "(null)" else arg.s)
    else if ch == 'c' then Field(g, "", "", OneChar(arg.n))
    else Field(g, "", "", [ch])
  }

  class PF {
    var out: string
    var charcount: int
    var inPct: bool
    var g: Flags
    var num: nat
    var sign: bool
    var base: nat
    var baseprefix: bool

    ghost predicate Valid()
      reads this
    {
      charcount == |out| && !sign && !baseprefix
    }

    constructor ()
      ensures Valid() && out == "" && !inPct && g == DEFAULT
    {
      out, charcount := "", 0;
      new;
      EndField();
    }

    /** __pf_endfield */
    method EndField()
      modifies this
      ensures out == old(out) && charcount == old(charcount) && !inPct && g == DEFAULT && !sign && !baseprefix
    {
      inPct, g, num, sign, base, baseprefix := false, DEFAULT, 0, false, 0, false;
    }

    /** __pf_print */
    method Print(s: string)
      modifies `out, `charcount
      ensures out == old(out) + s && charcount == old(charcount) + |s|
    {
      out := out + s;
      charcount := charcount + |s|;
    }

    /** __pf_modifier */
    method Modifier(ch: char)
      requires IsModifier(ch)
      modifies `g
      ensures g == Modified(old(g), ch)
    {
      if ch == '#' {
        g := g.(alt := true);
      } else if ch == '-' {
        g := g.(left := true);
      } else if ch == 'l' || ch == 'q' {
      } else if ch == '0' {
        if g.spacing > 0 { g := g.(spacing := g.spacing * 10); } else { g := g.(zero := true); }
      } else {
        assert '0' < ch <= '9';
        g := g.(spacing := g.spacing * 10 + DigitValue(ch));
      }
    }

    /** __pf_getnum; negation wraps, so that the least int is its own negative and reads as 2^31 */
    method GetNum(ch: char, arg: int)
      requires -0x8000_0000 <= arg < 0x8000_0000 && !sign
      modifies `num, `sign
      ensures num < U32
      ensures if ch == 'd' then num == Magnitude(arg) && sign == (arg < 0) else num == arg % U32 && !sign
    {
      if ch == 'd' {
        if arg < 0 {
          sign := true;
          num := (-arg) % U32;
        } else {
          num := arg;
        }
      } else {
        num := arg % U32;
      }
    }

    /** __pf_setbase */
    method SetBase(ch: char)
      requires IsInteger(ch) && !baseprefix
      modifies `base, `baseprefix
      ensures base == BaseOf(ch) && baseprefix == (g.alt || ch == 'p')
    {
      if ch == 'd' || ch == 'u' {
        base := 10;
      } else if ch == 'x' || ch == 'p' {
        base := 16;
      } else {
        base := 8;
      }
      if g.alt || ch == 'p' { baseprefix := true; }
    }

    /** __pf_fill */
    method FillOut(spc: int)
      modifies `out, `charcount
      ensures spc >= 0 ==> out == old(out) + Rep(Fill(g), spc) && charcount == old(charcount) + spc
    {
      var i := 0;
      assert out + Rep(Fill(g), 0) == out;
      while i < spc
        invariant 0 <= i && (spc >= 0 ==> i <= spc) && out == old(out) + Rep(Fill(g), i) &&
                  charcount == old(charcount) + i
      {
        Print([Fill(g)]);
        assert Rep(Fill(g), i + 1) == Rep(Fill(g), i) + [Fill(g)];
        i := i + 1;
      }
    }

    /** __pf_printstuff */
    method PrintStuff(prefix: string, prefix2: string, stuff: string)
      requires charcount == |out|
      modifies `out, `charcount
      ensures charcount == |out| && out == old(out) + Field(g, prefix, prefix2, stuff)
    {
      var len := |prefix| + |prefix2| + |stuff|;
      var spc: int := g.spacing;
      if spc > len { spc := spc - len; } else { spc := 0; }
      ghost var o := out;
      if spc > 0 && !g.left && Fill(g) != '0' { FillOut(spc); }
      ghost var a := Rep(' ', if !g.left && Fill(g) != '0' then spc else 0);
      assert out == o + a;
      Print(prefix);
      Print(prefix2);
      if spc > 0 && !g.left && Fill(g) == '0' { FillOut(spc); }
      ghost var b := Rep('0', if !g.left && Fill(g) == '0' then spc else 0);
      assert out == o + (a + prefix + prefix2 + b);
      Print(stuff);
      if spc > 0 && g.left { FillOut(spc); }
      ghost var c := Rep(Fill(g), if g.left then spc else 0);
      assert out == o + (a + prefix + prefix2 + b + stuff + c);
      Pieces(g, prefix, prefix2, stuff, a, b, c, spc);
    }

    /** The conversion loop of __pf_printnum, from the right in a buffer of NUMBER_BUF_SIZE bytes */
    method Convert() returns (buf: array<char>, x: nat)
      requires num < U32 && base in {8, 10, 16}
      ensures fresh(buf) && buf.Length == NUMBER_BUF_SIZE && x < NUMBER_BUF_SIZE - 1 && buf[NUMBER_BUF_SIZE - 1] == '\0'
      ensures buf[x..NUMBER_BUF_SIZE - 1] == Digits(num, base)
    {
      hide Digits, Pow8, Quotient, DigitOf;
      buf := new char[NUMBER_BUF_SIZE];
      buf[NUMBER_BUF_SIZE - 1] := '\0';
      var i: int := NUMBER_BUF_SIZE - 2;
      var xnum: nat := num;
      EightPowers();
      ghost var d := Digits(num, base);
      assert buf[i + 1..NUMBER_BUF_SIZE - 1] == "" && d + "" == d;
      while true
        invariant 0 <= i < NUMBER_BUF_SIZE - 1 && xnum < Pow8(i + 1) && buf[NUMBER_BUF_SIZE - 1] == '\0'
        invariant d == Digits(xnum, base) + buf[i + 1..NUMBER_BUF_SIZE - 1]
        decreases xnum
      {
        ghost var n, tail := xnum, buf[i + 1..NUMBER_BUF_SIZE - 1];
        var c := DigitOf(xnum, base);
        buf[i] := c;
        assert buf[i..NUMBER_BUF_SIZE - 1] == [c] + tail;
        xnum := Quotient(xnum, base);
        if xnum == 0 {
          LastDigit(n, base);
          return buf, i;
        }
        NextDigit(n, base, i);
        Regroup(Digits(xnum, base), c, tail);
        i := i - 1;
      }
    }

    /** __pf_printnum */
    method PrintNum(ch: char)
      requires charcount == |out| && num < U32 && base == BaseOf(ch) && baseprefix == (g.alt || ch == 'p')
      modifies `out, `charcount
      ensures charcount == |out| &&
              out == old(out) + Field(g, if sign then "-" else "", PrefixOf(g, ch), Digits(num, base))
    {
      var buf, x := Convert();
      var bprefix := if baseprefix && base == 16 then "0x" else if baseprefix && base == 8 then "0" else "";
      var sprefix := if sign then "-" else "";
      PrintStuff(sprefix, bprefix, buf[x..NUMBER_BUF_SIZE - 1]);
    }

    /** __pf_send */
    method Send(ch: char, arg: Arg)
      requires Valid() && ch != '\0' && (inPct && !IsModifier(ch) ==> Takes(ch, arg)) && (!inPct ==> g == DEFAULT)
      modifies this
      ensures Valid()
      ensures !old(inPct) && ch != '%' ==> out == old(out) + [ch] && !inPct && g == DEFAULT
      ensures !old(inPct) && ch == '%' ==> out == old(out) && inPct && g == DEFAULT
      ensures old(inPct) && IsModifier(ch) ==> out == old(out) && inPct && g == Modified(old(g), ch)
      ensures old(inPct) && !IsModifier(ch) ==> out == old(out) + Converted(old(g), ch, arg) && !inPct && g == DEFAULT
    {
      hide Field, Digits;
      if !inPct && ch != '%' {
        Print([ch]);
      } else if !inPct {
        inPct := true;
      } else if IsModifier(ch) {
        Modifier(ch);
      } else if IsInteger(ch) {
        GetNum(ch, arg.n);
        SetBase(ch);
        PrintNum(ch);
        EndField();
      } else if ch == 's' {
        PrintStuff("", "", if arg.Null? then "(null)" else arg.s);
        EndField();
      } else {
        var x := if ch == 'c' then OneChar(arg.n) else [ch];
        PrintStuff("", "", x);
        EndField();
      }
    }
  }

  /** printf of one %d with any modifiers, and atoi of the text: the number comes back exactly unless it is not 0 and
      zeros follow it. */
  method PrintAndParse(mods: string, n: int) returns (r: int)
    requires (forall i :: 0 <= i < |mods| ==> IsModifier(mods[i])) && -0x8000_0000 <= n < 0x8000_0000
    ensures r == n <==> n == 0 || !ZeroTail(Modifiers(DEFAULT, mods), n)
  {
    hide Field, Digits, Value, ZeroTail;
    var pf := new PF();
    pf.Send('%', Int(n));
    var i := 0;
    assert mods[..0] == "";
    while i < |mods|
      invariant 0 <= i <= |mods| && pf.Valid() && pf.inPct && pf.out == "" && pf.g == Modifiers(DEFAULT, mods[..i])
    {
      assert mods[..i + 1][..i] == mods[..i];
      pf.Send(mods[i], Int(n));
      i := i + 1;
    }
    assert mods[..i] == mods;
    pf.Send('d', Int(n));
    ghost var g := Modifiers(DEFAULT, mods);
    assert pf.out == Field(g, SignOf(n), "", Digits(Magnitude(n), 10));
    RoundTrip(g, n);
    r := Parse(pf.out);
  }

  lemma Pieces(g: Flags, prefix: string, prefix2: string, stuff: string, a: string, b: string, c: string, spc: nat)
    requires spc == Padding(g, |prefix| + |prefix2| + |stuff|)
    requires a == (if !g.left && !g.zero then Rep(' ', spc) else "") &&
             b == (if !g.left && g.zero then Rep('0', spc) else "")
    requires c == if g.left then Rep(Fill(g), spc) else ""
    ensures a + prefix + prefix2 + b + stuff + c == Field(g, prefix, prefix2, stuff)
  {
  }

  function Pow8(k: nat): nat { if k == 0 then 1 else 8 * Pow8(k - 1) }

  lemma EightPowers()
    ensures U32 <= Pow8(11)
  {
    assert Pow8(4) == 4096;
    assert Pow8(8) == 4096 * 4096;
  }

  function Quotient(n: nat, b: nat): nat
    requires b > 0
  {
    n / b
  }

  function DigitOf(n: nat, b: nat): char
    requires 2 <= b <= 16
  {
    DIGITS[n % b]
  }

  lemma Regroup(q: string, c: char, tail: string)
    ensures q + [c] + tail == q + ([c] + tail)
  {
  }

  lemma LastDigit(n: nat, b: nat)
    requires 2 <= b <= 16 && Quotient(n, b) == 0
    ensures Digits(n, b) == [DigitOf(n, b)]
  {
    DivMod(n, b);
  }

  lemma NextDigit(n: nat, b: nat, i: nat)
    requires b in {8, 10, 16} && Quotient(n, b) > 0 && n < Pow8(i + 1)
    ensures Digits(n, b) == Digits(Quotient(n, b), b) + [DigitOf(n, b)] && Quotient(n, b) < Pow8(i) &&
            Quotient(n, b) < n && i > 0
  {
    DivMod(n, b);
    AtLeast(n / b, 8, b);
    AtLeast(b, 1, n / b);
    assert n >= b;
    hide Digits;
    DigitsMore(n, b);
  }
}
