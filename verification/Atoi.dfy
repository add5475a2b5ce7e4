/** Model of atoi, lib/libc/atoi.c. A string holds the characters up to the terminating NUL. */
module Atoi {
  import opened Words
  import opened Lists

  predicate IsSpace(c: char) { c == ' ' || c == '\t' }

  predicate IsDigit(c: char) { '0' <= c <= '9' }

  predicate AllDigits(s: string) { forall i :: 0 <= i < |s| ==> IsDigit(s[i]) }

  function DigitValue(c: char): nat
    requires IsDigit(c)
  {
    (c - '0') as nat
  }

  /** The number a string of digits denotes. */
  function Dec(s: string): nat
    requires AllDigits(s)
  {
    if s == "" then 0 else Dec(s[..|s| - 1]) * 10 + DigitValue(s[|s| - 1])
  }

  function SkipSpace(s: string): (r: string)
    ensures r == "" || !IsSpace(r[0])
  {
    if s != "" && IsSpace(s[0]) then SkipSpace(s[1..]) else s
  }

  /** The digits a string begins with. */
  function DigitRun(s: string): (r: string)
    ensures AllDigits(r) && r <= s && (|r| < |s| ==> !IsDigit(s[|r|]))
  {
    if s != "" && IsDigit(s[0]) then [s[0]] + DigitRun(s[1..]) else ""
  }

  function Signed(neg: bool, v: nat): int
  {
    ToInt(if neg then (U32 - v % U32) % U32 else v % U32)
  }

  /** What atoi promises: blanks, a sign, and the digits after it as a number modulo 2^32. */
  function Value(s: string): int {
    var t := SkipSpace(s);
    var neg := t != "" && t[0] == '-';
    var d := if t != "" && (t[0] == '-' || t[0] == '+') then t[1..] else t;
    Signed(neg, Dec(DigitRun(d)))
  }

  lemma DigitRunStep(s: string, k: nat)
    requires k <= |DigitRun(s)| && |DigitRun(s)| <= |s|
    ensures k < |s| ==> (k < |DigitRun(s)| <==> IsDigit(s[k]))
    ensures k < |DigitRun(s)| ==> DigitRun(s)[k] == s[k]
  {
    assert DigitRun(s) == s[..|DigitRun(s)|];
  }

  /** atoi */
  method Parse(s: string) returns (r: int)
    ensures r == Value(s)
  {
    hide SkipSpace, Dec, DigitRun;
    var i := SkipBlank(s);
    ghost var t := s[i..];
    var neg := false;
    if i < |s| && s[i] == '-' {
      neg := true;
      i := i + 1;
    } else if i < |s| && s[i] == '+' {
      i := i + 1;
    }
    assert s[i..] == if t != "" && (t[0] == '-' || t[0] == '+') then t[1..] else t;
    var val := ScanDigits(s, i);
    r := ToInt(if neg then (U32 - val) % U32 else val);
  }

  method SkipBlank(s: string) returns (i: nat)
    ensures i <= |s| && s[i..] == SkipSpace(s)
  {
    i := 0;
    while i < |s| && IsSpace(s[i])
      invariant 0 <= i <= |s| && SkipSpace(s) == SkipSpace(s[i..])
    {
      assert s[i..][1..] == s[i + 1..];
      i := i + 1;
    }
  }

  /** A value kept in 32 bits */
  function Low(v: nat): nat { v % U32 }

  /** The first i - start digits of the run at start have been read, and their value kept in 32 bits. */
  ghost predicate Scanned(s: string, start: nat, i: nat, val: nat) {
    && start <= i <= |s| && i - start <= |DigitRun(s[start..])|
    && val == Low(Dec(DigitRun(s[start..])[..i - start]))
  }

  lemma ScanBegin(s: string, start: nat)
    requires start <= |s|
    ensures Scanned(s, start, start, 0)
  {
    assert DigitRun(s[start..])[..0] == "";
  }

  lemma ScanStep(s: string, start: nat, i: nat, val: nat)
    requires Scanned(s, start, i, val) && i < |s| && IsDigit(s[i])
    ensures Scanned(s, start, i + 1, Accumulate(val, s[i]))
  {
    hide DigitRun, Dec, Low;
    var run, k := DigitRun(s[start..]), i - start;
    DigitRunStep(s[start..], k);
    DecNext(run, k);
    AccumulateLow(val, s[i], Dec(run[..k]));
  }

  lemma ScanEnd(s: string, start: nat, i: nat, val: nat)
    requires Scanned(s, start, i, val) && (i < |s| ==> !IsDigit(s[i]))
    ensures val == Low(Dec(DigitRun(s[start..])))
  {
    hide DigitRun, Dec, Low;
    var run := DigitRun(s[start..]);
    DigitRunStep(s[start..], i - start);
    assert run[..i - start] == run;
  }

  method ScanDigits(s: string, start: nat) returns (val: nat)
    requires start <= |s|
    ensures val == Low(Dec(DigitRun(s[start..])))
  {
    hide Scanned, DigitRun, Dec, Low, Accumulate;
    var i := start;
    val := 0;
    ScanBegin(s, start);
    while i < |s|
      invariant start <= i <= |s| && Scanned(s, start, i, val)
    {
      if !IsDigit(s[i]) { break; }
      ScanStep(s, start, i, val);
      val := Accumulate(val, s[i]);
      i := i + 1;
    }
    ScanEnd(s, start, i, val);
  }

  function Accumulate(val: nat, c: char): nat
    requires IsDigit(c)
  {
    (val * 10 + DigitValue(c)) % U32
  }

  lemma AccumulateLow(val: nat, c: char, v: nat)
    requires IsDigit(c) && val == Low(v)
    ensures Accumulate(val, c) == Low(v * 10 + DigitValue(c))
  {
    Carry(v, DigitValue(c));
  }

  lemma DecNext(s: string, k: nat)
    requires AllDigits(s) && k < |s|
    ensures Dec(s[..k + 1]) == Dec(s[..k]) * 10 + DigitValue(s[k])
  {
    assert s[..k + 1][..k] == s[..k];
  }

  lemma Carry(v: nat, d: nat)
    ensures (v % U32 * 10 + d) % U32 == (v * 10 + d) % U32
  {
    var q, r := v / U32, v % U32;
    var p := r * 10 + d;
    ModIs(v * 10 + d, 10 * q + p / U32, p % U32);
  }

  lemma ModIs(n: nat, q: nat, r: nat)
    requires n == U32 * q + r && r < U32
    ensures n % U32 == r
  {
  }

  // ---- digits, blanks and zeros

  lemma {:induction false} SkipBlanks(k: nat, s: string)
    requires s == "" || !IsSpace(s[0])
    ensures SkipSpace(Rep(' ', k) + s) == s
  {
    if k == 0 {
      assert Rep(' ', k) + s == s;
    } else {
      assert (Rep(' ', k) + s)[1..] == Rep(' ', k - 1) + s;
      SkipBlanks(k - 1, s);
    }
  }

  lemma {:induction false} RunStops(s: string, t: string)
    requires AllDigits(s) && (t == "" || !IsDigit(t[0]))
    ensures DigitRun(s + t) == s
  {
    if s == "" {
      assert s + t == t;
    } else {
      assert (s + t)[1..] == s[1..] + t;
      RunStops(s[1..], t);
    }
  }

  lemma {:induction false} DecZeros(k: nat, s: string)
    requires AllDigits(s)
    ensures AllDigits(Rep('0', k) + s) && Dec(Rep('0', k) + s) == Dec(s)
    decreases |s|, k
  {
    var z := Rep('0', k) + s;
    if s != "" {
      assert z[..|z| - 1] == Rep('0', k) + s[..|s| - 1];
      DecZeros(k, s[..|s| - 1]);
    } else if k > 0 {
      assert z[..|z| - 1] == Rep('0', k - 1) + s;
      DecZeros(k - 1, s);
    }
  }

  function Pow10(k: nat): nat { if k == 0 then 1 else 10 * Pow10(k - 1) }

  lemma Tenfold(a: nat, b: nat)
    ensures a * (10 * b) == a * b * 10
  {
  }

  lemma {:induction false} DecShift(s: string, k: nat)
    requires AllDigits(s)
    ensures AllDigits(s + Rep('0', k)) && Dec(s + Rep('0', k)) == Dec(s) * Pow10(k)
  {
    var z := s + Rep('0', k);
    if k == 0 {
      assert z == s;
    } else {
      assert z[..|z| - 1] == s + Rep('0', k - 1);
      DecShift(s, k - 1);
      Tenfold(Dec(s), Pow10(k - 1));
    }
  }
}
