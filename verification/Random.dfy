/** Model of random(3), lib/libc/random.c. A long is 32 bits and is kept as the residue modulo 2^32; a state array is
    an array of such words whose element 0 is the header, so that state[i] of the source is element i + 1 here. */
module Random {
  import opened Words

  const MAX_TYPES: nat := 5

  function Deg(t: nat): (d: nat)
    ensures t == 0 <==> d == 0
  {
    if t == 0 then 0 else if t == 1 then 7 else if t == 2 then 15 else if t == 3 then 31 else 63
  }

  function Sep(t: nat): (s: nat)
    ensures t != 0 ==> 0 < s < Deg(t)
  {
    if t == 0 then 0 else if t == 1 then 3 else if t == 2 then 1 else if t == 3 then 3 else 1
  }

  /** initstate's choice for n bytes, which then hold the header and the state */
  function TypeFor(n: nat): (t: nat)
    requires n >= 8
    ensures t < MAX_TYPES && 4 * (Deg(t) + 1) <= n
  {
    if n < 32 then 0 else if n < 64 then 1 else if n < 128 then 2 else if n < 256 then 3 else 4
  }

  // ---- the generator as a stream

  /** The last deg values from the oldest to the newest, the next one, and the window after it. */
  function Value(w: seq<nat>, sep: nat): nat
    requires 0 < sep <= |w|
  {
    (w[0] + w[|w| - sep]) % U32
  }

  function Shift(w: seq<nat>, sep: nat): (w': seq<nat>)
    requires 0 < sep <= |w|
    ensures |w'| == |w|
  {
    w[1..] + [Value(w, sep)]
  }

  function Shifts(w: seq<nat>, sep: nat, k: nat): (w': seq<nat>)
    requires 0 < sep <= |w|
    ensures |w'| == |w|
  {
    if k == 0 then w else Shift(Shifts(w, sep, k - 1), sep)
  }

  /** The recurrence that a trinomial x^deg + x^sep + 1 stands for. */
  function Y(w: seq<nat>, sep: nat, n: nat): nat
    requires 0 < sep <= |w|
  {
    if n < |w| then w[n] else (Y(w, sep, n - |w|) + Y(w, sep, n - sep)) % U32
  }

  /** After k calls the window is the k-th stretch of the stream. */
  lemma {:induction false} WindowIsStream(w: seq<nat>, sep: nat, k: nat, i: nat)
    requires 0 < sep <= |w| && i < |w|
    ensures Shifts(w, sep, k)[i] == Y(w, sep, k + i)
    decreases k
  {
    if k > 0 {
      if i < |w| - 1 {
        WindowIsStream(w, sep, k - 1, i + 1);
      } else {
        WindowIsStream(w, sep, k - 1, 0);
        WindowIsStream(w, sep, k - 1, |w| - sep);
      }
    }
  }

  // ---- the ring

  /** The ring from the front pointer on: the front element is the oldest. */
  function Window(s: seq<nat>, f: nat): (w: seq<nat>)
    requires f <= |s|
    ensures |w| == |s|
  {
    s[f..] + s[..f]
  }

  function Wrap(i: nat, n: nat): (j: nat)
    requires i <= n && n > 0
    ensures j < n
  {
    if i == n then 0 else i
  }

  /** Adding the rear element into the front one and moving both pointers on is one shift of the window. */
  lemma RingStep(s: seq<nat>, f: nat, r: nat, sep: nat)
    requires 0 < sep < |s| && f < |s| && r < |s| && f == (if r + sep < |s| then r + sep else r + sep - |s|)
    ensures Window(s[f := (s[f] + s[r]) % U32], Wrap(f + 1, |s|)) == Shift(Window(s, f), sep)
    ensures Value(Window(s, f), sep) == (s[f] + s[r]) % U32
    ensures !(f + 1 == |s| && r + 1 == |s|)
  {
    var w := Window(s, f);
    assert w[0] == s[f] && w[|s| - sep] == s[r];
  }

  const LCG_A: nat := 1103515245
  const LCG_C: nat := 12345

  /** The words a seed gives: a linear congruential sequence. */
  function Seeded(x: nat, n: nat): (s: seq<nat>)
    requires n > 0
    ensures |s| == n
  {
    if n == 1 then [x % U32] else var s := Seeded(x, n - 1); s + [(LCG_A * s[n - 2] + LCG_C) % U32]
  }

  /** C's remainder of a header, which is signed */
  function TypeOf(x: nat): int
    requires x < U32
  {
    if x < 0x8000_0000 then x % MAX_TYPES else -((U32 - x) % MAX_TYPES)
  }

  /** What setstate trusts a header to be: the rear pointer lies in the state, which lies in the array. */
  predicate Loadable(x: nat, length: nat)
    requires x < U32
  {
    TypeOf(x) > 0 ==> length > Deg(TypeOf(x)) && x / MAX_TYPES < Deg(TypeOf(x))
  }

  class Generator {
    var st: array<nat>
    var kind: nat
    var f: nat
    var r: nat

    ghost predicate Valid()
      reads this, st
    {
      && kind < MAX_TYPES && st.Length > Deg(kind) && st.Length >= 2 && (forall i :: 0 <= i < st.Length ==> st[i] < U32)
      && (kind != 0 ==> r < Deg(kind) && f == Front(kind, r))
    }

    static function Front(kind: nat, r: nat): (f: nat)
      requires kind != 0 && r < Deg(kind)
      ensures f < Deg(kind)
    {
      if r + Sep(kind) < Deg(kind) then r + Sep(kind) else r + Sep(kind) - Deg(kind)
    }

    ghost function Ring(): (s: seq<nat>)
      requires Valid()
      reads this, st
      ensures |s| == Deg(kind)
    {
      st[1..1 + Deg(kind)]
    }

    ghost function View(): (w: seq<nat>)
      requires Valid() && kind != 0
      reads this, st
      ensures |w| == Deg(kind)
    {
      Window(Ring(), f)
    }

    /** random_unlocked */
    method Random() returns (i: nat)
      requires Valid()
      modifies st, `f, `r
      ensures Valid() && i < 0x8000_0000 && (forall j :: Deg(kind) < j < st.Length && j > 1 ==> st[j] == old(st[j])) &&
              st[0] == old(st[0])
      ensures kind == 0 ==> st[1] == i == (old(st[1]) * LCG_A + LCG_C) % 0x8000_0000 && f == old(f) && r == old(r)
      ensures kind != 0 ==> View() == Shift(old(View()), Sep(kind)) && i == Value(old(View()), Sep(kind)) / 2
      ensures kind != 0 ==> r == Wrap(old(r) + 1, Deg(kind))
    {
      if kind == 0 {
        i := st[1];
        i := (i * LCG_A + LCG_C) % 0x8000_0000;
        st[1] := i;
        return;
      }
      i := Advance();
    }

    /** The trinomial branch of random_unlocked */
    method Advance() returns (i: nat)
      requires Valid() && kind != 0
      modifies st, `f, `r
      ensures Valid() && i < 0x8000_0000 && (forall j :: Deg(kind) < j < st.Length ==> st[j] == old(st[j])) &&
              st[0] == old(st[0])
      ensures View() == Shift(old(View()), Sep(kind)) && i == Value(old(View()), Sep(kind)) / 2
      ensures r == Wrap(old(r) + 1, Deg(kind))
    {
      hide Deg, Sep, Window, Shift, Value, Ring;
      ghost var s := Ring();
      RingStep(s, f, r, Sep(kind));
      i := AddRear();
      MoveOn();
    }

    method AddRear() returns (i: nat)
      requires Valid() && kind != 0
      modifies st
      ensures Valid() && i < 0x8000_0000 && (forall j :: Deg(kind) < j < st.Length ==> st[j] == old(st[j])) &&
              st[0] == old(st[0])
      ensures Ring() == old(Ring())[f := (old(Ring())[f] + old(Ring())[r]) % U32] && i == Ring()[f] / 2
    {
      hide Deg, Sep;
      st[f + 1] := (st[f + 1] + st[r + 1]) % U32;
      i := st[f + 1] / 2;
    }

    method MoveOn()
      requires Valid() && kind != 0
      modifies `f, `r
      ensures Valid() && r == Wrap(old(r) + 1, Deg(kind)) && f == Wrap(old(f) + 1, Deg(kind)) && Ring() == old(Ring())
    {
      hide Deg, Sep;
      f := f + 1;
      if f >= Deg(kind) {
        f := 0;
        r := r + 1;
        assert r < Deg(kind);
      } else {
        r := r + 1;
        if r >= Deg(kind) { r := 0; }
      }
    }

    /** srandom_unlocked */
    method Srandom(x: nat)
      requires kind < MAX_TYPES && st.Length > Deg(kind) && st.Length >= 2 && x < U32 &&
               forall i :: 0 <= i < st.Length ==> st[i] < U32
      modifies st, `f, `r
      ensures Valid() && st[0] == old(st[0])
      ensures kind == 0 ==> st[1] == x && f == old(f) && r == old(r)
      ensures kind != 0 ==> r == 0 && f == Sep(kind)
      ensures kind != 0 ==> View() == Shifts(Window(Seeded(x, Deg(kind)), Sep(kind)), Sep(kind), 10 * Deg(kind))
    {
      hide Shift, Value, Shifts, Window;
      st[1] := x;
      if kind == 0 { return; }
      FillSeeded(x);
      WarmUp();
    }

    /** The words of the state from the seed in the first of them */
    method FillSeeded(x: nat)
      requires 0 < kind < MAX_TYPES && st.Length > Deg(kind) && x < U32 && st[1] == x &&
               forall i :: 0 <= i < st.Length ==> st[i] < U32
      modifies st, `f, `r
      ensures Valid() && st[0] == old(st[0]) && r == 0 && f == Sep(kind)
      ensures Ring() == Seeded(x, Deg(kind))
    {
      hide Deg, Sep;
      var i := 1;
      while i < Deg(kind)
        modifies st
        invariant 1 <= i <= Deg(kind) && st[0] == old(st[0]) && (forall j :: 0 <= j < st.Length ==> st[j] < U32)
        invariant st[1..1 + i] == Seeded(x, i)
      {
        ghost var s := st[1..1 + i];
        assert s[i - 1] == st[i];
        st[1 + i] := (LCG_A * st[i] + LCG_C) % U32;
        assert st[1..1 + i] == s;
        i := i + 1;
      }
      f := Sep(kind);
      r := 0;
    }

    /** Ten times round the ring, which brings the rear pointer back to where it was */
    method WarmUp()
      requires Valid() && kind != 0 && r == 0
      modifies st, `f, `r
      ensures Valid() && st[0] == old(st[0]) && r == 0 && f == Sep(kind)
      ensures View() == Shifts(old(View()), Sep(kind), 10 * Deg(kind))
    {
      hide Deg, Sep, Shift, Value, Window, Ring;
      ghost var w, d, q := View(), Deg(kind), 0;
      var i := 0;
      while i < 10 * Deg(kind)
        modifies st, `f, `r
        invariant 0 <= i <= 10 * Deg(kind) && Valid() && st[0] == old(st[0]) && Round(i, q, d, r) &&
                  View() == Shifts(w, Sep(kind), i)
      {
        RoundNext(i, q, d, r);
        var _ := Advance();
        if r == 0 { q := q + 1; }
        i := i + 1;
      }
      RoundEnd(q, d, r);
    }

    /** The header that remembers the type and the rear pointer of the current state */
    function Header(): nat
      reads this
    {
      if kind == 0 then 0 else MAX_TYPES * r + kind
    }

    /** initstate on the first n bytes of a; false stands for a NULL result */
    method Initstate(seed: nat, a: array<nat>, n: nat) returns (ok: bool)
      requires Valid() && seed < U32 && n <= 4 * a.Length && forall i :: 0 <= i < a.Length ==> a[i] < U32
      modifies this, st, a
      ensures Valid() && ok == (n >= 8)
      ensures !ok ==> st == old(st) && kind == old(kind) && f == old(f) && r == old(r)
      ensures ok ==> st == a && kind == TypeFor(n) && st[0] == Header() && (kind != 0 ==> r == 0)
      ensures ok ==>
                if kind == 0 then st[1] == seed
                  else View() == Shifts(Window(Seeded(seed, Deg(kind)), Sep(kind)), Sep(kind), 10 * Deg(kind))
      ensures !ok || a != old(st) ==>
                old(st)[0] == old(Header()) && forall i :: 0 < i < old(st).Length ==> old(st)[i] == old(st[i])
    {
      hide Deg, Sep, Shifts, Window, Seeded, TypeFor;
      HeaderFits();
      ghost var s := st;
      st[0] := Header();
      if n < 8 { return false; }
      kind := TypeFor(n);
      st := a;
      Srandom(seed);
      st[0] := Header();
      return true;
    }

    lemma HeaderFits()
      requires Valid()
      ensures Header() < 400 && (kind != 0 ==> Header() % MAX_TYPES == kind && Header() / MAX_TYPES == r)
    {
    }

    /** setstate; false stands for a NULL result */
    method Setstate(a: array<nat>) returns (ok: bool)
      requires Valid() && a.Length >= 2 && (forall i :: 0 <= i < a.Length ==> a[i] < U32) && Loadable(a[0], a.Length)
      modifies this, st
      ensures Valid() && ok == (TypeOf(old(a[0])) >= 0)
      ensures old(st)[0] == old(Header()) && forall i :: 0 < i < old(st).Length ==> old(st)[i] == old(st[i])
      ensures !ok ==> st == old(st) && kind == old(kind) && f == old(f) && r == old(r)
      ensures ok ==> st == a && kind == TypeOf(old(a[0])) && (kind != 0 ==> r == old(a[0]) / MAX_TYPES)
    {
      hide Deg, Sep;
      var ty, rear := TypeOf(a[0]), a[0] / MAX_TYPES;
      HeaderFits();
      st[0] := Header();
      if ty < 0 { return false; }
      kind := ty;
      st := a;
      if kind != 0 {
        r := rear;
        f := Front(kind, rear);
      }
      return true;
    }

    /** Going over to another array, drawing k numbers there and coming back resumes the stream where it was left. */
    method ThereAndBack(seed: nat, a: array<nat>, n: nat, k: nat)
      requires Valid() && a != st && seed < U32 && 8 <= n <= 4 * a.Length && forall i :: 0 <= i < a.Length ==>
                 a[i] < U32
      modifies this, st, a
      ensures Valid() && st == old(st) && kind == old(kind) && (kind != 0 ==> f == old(f) && r == old(r))
      ensures forall i :: 0 < i < st.Length ==> st[i] == old(st[i])
    {
      hide Deg, Sep, Shifts, Shift, Value, Window, Seeded, TypeFor;
      HeaderFits();
      HeaderLoads();
      var home := st;
      var ok := Initstate(seed, a, n);
      ghost var s := home[..];
      var i := 0;
      while i < k
        invariant 0 <= i <= k && Valid() && st == a && home[..] == s
      {
        var _ := Random();
        i := i + 1;
      }
      assert home[0] == s[0];
      ok := Setstate(home);
      assert forall j :: 0 < j < home.Length ==> home[j] == s[j];
    }

    lemma HeaderLoads()
      requires Valid()
      ensures Loadable(Header(), st.Length) && TypeOf(Header()) == kind
    {
      HeaderFits();
    }

    /** setstate with the current array reads the header before it writes it: the generator goes on where it was
        exactly if the header was refused or up to date. */
    method SameState() returns (ok: bool)
      requires Valid() && Loadable(st[0], st.Length)
      modifies this, st
      ensures Valid() && st == old(st) && ok == (TypeOf(old(st[0])) >= 0)
      ensures kind == old(kind) && (kind != 0 ==> f == old(f) && r == old(r)) <==>
              !ok || (if old(kind) == 0 then TypeOf(old(st[0])) == 0 else old(st[0]) == old(Header()))
    {
      hide Deg, Sep;
      ghost var h := st[0];
      HeaderFits();
      ok := Setstate(st);
      assert h == MAX_TYPES * (h / MAX_TYPES) + h % MAX_TYPES;
    }

    /** So it is not harmless: one number after initstate it takes the rear pointer back to the start. */
    method Rewound(seed: nat, a: array<nat>) returns (rear: nat)
      requires Valid() && a.Length == 8 && seed < U32 && forall i :: 0 <= i < a.Length ==> a[i] < U32
      modifies this, st, a
      ensures Valid() && st == a && rear == 1 && r == 0
    {
      hide Shifts, Shift, Value, Window, Seeded;
      var ok := Initstate(seed, a, 32);
      HeaderFits();
      var _ := Random();
      rear := r;
      assert st[0] == 1;
      ok := Setstate(st);
    }
  }

  predicate Round(i: nat, q: nat, d: nat, r: nat) { i == q * d + r && r < d }

  lemma RoundNext(i: nat, q: nat, d: nat, r: nat)
    requires Round(i, q, d, r)
    ensures if r + 1 == d then Round(i + 1, q + 1, d, 0) else Round(i + 1, q, d, r + 1)
  {
    assert (q + 1) * d == q * d + d;
  }

  lemma RoundEnd(q: nat, d: nat, r: nat)
    requires Round(10 * d, q, d, r)
    ensures r == 0
  {
    assert (q + 1) * d == q * d + d;
    if q < 10 { Times(q + 1, 10, d); }
    if q > 10 { Times(11, q, d); }
  }

  lemma Times(a: nat, b: nat, d: nat)
    requires a <= b
    ensures a * d <= b * d
  {
  }
}
