/** Model of the argument block that kern/userprog/sysexecv.c and kern/userprog/runprogram.c build on a new user
    stack. User memory is an array of bytes indexed by address; copies to it succeed. */
module ExecArgs {
  import opened Words
  import U = Uio
  import K = KheapState
  import H = Kheap

  type Str = s: seq<byte> | forall k :: 0 <= k < |s| ==> s[k] != 0

  /** The room a string gets: its length and one to four bytes more. */
  function Room(s: Str): (r: nat)
    ensures |s| < r <= |s| + 4
  {
    4 - |s| % 4 + |s|
  }

  /** The room of the first i strings. */
  function Before(args: seq<Str>, i: nat): nat
    requires i <= |args|
  {
    if i == 0 then 0 else Before(args, i - 1) + Room(args[i - 1])
  }

  lemma {:induction false} BeforeGrows(args: seq<Str>, i: nat, j: nat)
    requires i <= j <= |args|
    ensures Before(args, i) <= Before(args, j) && (i < j ==> Before(args, i) + Room(args[i]) <= Before(args, j))
    decreases j
  {
    if i < j { BeforeGrows(args, i, j - 1); }
  }

  lemma BeforeNone(args: seq<Str>)
    ensures Before(args, 0) == 0
  {
  }

  lemma BeforeNext(args: seq<Str>, i: nat)
    requires 0 < i <= |args|
    ensures Before(args, i) == Before(args, i - 1) + Room(args[i - 1])
  {
  }

  /** Every string begins on a word boundary of the block. */
  lemma {:induction false} BeforeAligned(args: seq<Str>, i: nat)
    requires i <= |args|
    ensures Before(args, i) % 4 == 0
  {
    if i > 0 {
      BeforeAligned(args, i - 1);
      BeforeNext(args, i);
      RoomAligned(args[i - 1]);
      hide Room, Before;
      SumAligned(Before(args, i - 1), Room(args[i - 1]));
    }
  }

  lemma RoomAligned(s: Str)
    ensures Room(s) % 4 == 0
  {
  }

  lemma SumAligned(a: nat, b: nat)
    requires a % 4 == 0 && b % 4 == 0
    ensures (a + b) % 4 == 0
  {
    assert a == 4 * (a / 4) && b == 4 * (b / 4);
    assert a + b == 4 * (a / 4 + b / 4);
  }

  /** The number of arguments, the pointers, the NULL and the strings. */
  function Total(args: seq<Str>): nat { 4 + 4 * (|args| + 1) + Before(args, |args|) }

  /** Where string i goes in a block at sp; for i the number of arguments, the end of the block. */
  function StringAt(sp: nat, args: seq<Str>, i: nat): nat
    requires i <= |args|
  {
    sp + 4 + 4 * (|args| + 1) + Before(args, i)
  }

  function WordAt(m: seq<byte>, a: nat): u32
    requires a + 4 <= |m|
  {
    Pack(m[a], m[a + 1], m[a + 2], m[a + 3])
  }

  // ---- what the program reads

  function StrAt(m: seq<byte>, a: nat): seq<byte>
    decreases |m| - a
  {
    if a < |m| && m[a] != 0 then [m[a]] + StrAt(m, a + 1) else []
  }

  /** The strings that the pointers from a on point to, up to a NULL. */
  function ArgvAt(m: seq<byte>, a: nat): seq<seq<byte>>
    decreases |m| - a
  {
    if a + 4 <= |m| && WordAt(m, a) != 0 then [StrAt(m, WordAt(m, a))] + ArgvAt(m, a + 4) else []
  }

  // ---- what the kernel writes

  /** A block for args at sp: the count, the pointers and the strings, the rest of it and of memory as before. */
  ghost predicate Laid(was: seq<byte>, m: seq<byte>, sp: nat, args: seq<Str>) {
    && |m| == |was| <= 0x8000_0000 && sp + Total(args) <= |m| && sp > 0
    && WordAt(m, sp) == |args|
    && (forall i :: 0 <= i < |args| ==> PointerIn(m, sp, args, i))
    && (forall i :: 0 <= i < |args| ==> StringIn(m, sp, args, i))
    && (forall k :: 0 <= k < |m| && !Written(sp, args, k) ==> m[k] == was[k])
  }

  predicate PointerIn(m: seq<byte>, sp: nat, args: seq<Str>, i: nat)
    requires i < |args|
  {
    sp + 8 + 4 * i <= |m| && WordAt(m, sp + 4 + 4 * i) == StringAt(sp, args, i)
  }

  ghost predicate StringIn(m: seq<byte>, sp: nat, args: seq<Str>, i: nat)
    requires i < |args|
  {
    var a := StringAt(sp, args, i);
    a + |args[i]| <= |m| && m[a..a + |args[i]|] == args[i]
  }

  /** The bytes that are written: the count and the pointers, and each string without its terminator. */
  ghost predicate Written(sp: nat, args: seq<Str>, k: int) {
    sp <= k < sp + 4 + 4 * |args| || exists i :: 0 <= i < |args| && InString(sp, args, i, k)
  }

  predicate InString(sp: nat, args: seq<Str>, i: nat, k: int)
    requires i < |args|
  {
    StringAt(sp, args, i) <= k < StringAt(sp, args, i) + |args[i]|
  }

  /** What the kernel leaves to the stack being zero: the NULL after the pointers and a byte after each string. */
  ghost predicate Terminated(was: seq<byte>, sp: nat, args: seq<Str>)
    requires sp + Total(args) <= |was|
  {
    WordAt(was, sp + 4 + 4 * |args|) == 0 && forall i :: 0 <= i < |args| ==> EndsIn(was, sp, args, i)
  }

  predicate EndsIn(m: seq<byte>, sp: nat, args: seq<Str>, i: nat)
    requires i < |args|
  {
    var k := StringAt(sp, args, i) + |args[i]|;
    k < |m| && m[k] == 0
  }

  lemma {:induction false} StrRead(m: seq<byte>, a: nat, s: Str)
    requires a + |s| < |m| && m[a..a + |s|] == s
    ensures StrAt(m, a) == s <==> m[a + |s|] == 0
    decreases |s|
  {
    if s == [] {
      assert StrAt(m, a) == [] <==> m[a] == 0;
    } else {
      assert m[a] == s[0] && m[a + 1..a + 1 + |s[1..]|] == s[1..];
      StrRead(m, a + 1, s[1..]);
      assert s == [s[0]] + s[1..];
    }
  }

  /** String i lies inside the block, and so does the byte after it, which no copy writes. */
  lemma Inside(sp: nat, args: seq<Str>, i: nat)
    requires i < |args|
    ensures StringAt(sp, args, i) + |args[i]| < StringAt(sp, args, i + 1) <= sp + Total(args)
    ensures !Written(sp, args, StringAt(sp, args, i) + |args[i]|)
  {
    BeforeGrows(args, i + 1, |args|);
    var k := StringAt(sp, args, i) + |args[i]|;
    forall j | 0 <= j < |args| ensures !InString(sp, args, j, k) {
      if j < i { BeforeGrows(args, j, i); } else if j > i { BeforeGrows(args, i, j); }
    }
  }

  lemma SlotUntouched(sp: nat, args: seq<Str>)
    ensures forall k :: sp + 4 + 4 * |args| <= k < sp + 8 + 4 * |args| ==> !Written(sp, args, k)
  {
  }

  /** The program reads back its arguments exactly if the memory under the terminators was zero. */
  lemma ReadBack(was: seq<byte>, m: seq<byte>, sp: nat, args: seq<Str>)
    requires Laid(was, m, sp, args)
    ensures WordAt(m, sp) == |args|
    ensures ArgvAt(m, sp + 4) == args <==> Terminated(was, sp, args)
  {
    SlotUntouched(sp, args);
    assert WordAt(m, sp + 4 + 4 * |args|) == WordAt(was, sp + 4 + 4 * |args|);
    forall i | 0 <= i < |args| ensures EndsIn(m, sp, args, i) <==> EndsIn(was, sp, args, i) { Inside(sp, args, i); }
    ArgvFrom(was, m, sp, args, 0);
    assert args[0..] == args;
  }

  ghost predicate EndFrom(m: seq<byte>, sp: nat, args: seq<Str>, i: nat) {
    forall j :: i <= j < |args| ==> EndsIn(m, sp, args, j)
  }

  lemma EndStep(m: seq<byte>, sp: nat, args: seq<Str>, i: nat)
    requires i < |args|
    ensures EndFrom(m, sp, args, i) <==> EndsIn(m, sp, args, i) && EndFrom(m, sp, args, i + 1)
  {
    hide EndsIn;
  }

  lemma {:induction false} ArgvFrom(was: seq<byte>, m: seq<byte>, sp: nat, args: seq<Str>, i: nat)
    requires Laid(was, m, sp, args) && i <= |args|
    ensures sp + 8 + 4 * |args| <= |m|
    ensures ArgvAt(m, sp + 4 + 4 * i) == args[i..] <==> WordAt(m, sp + 4 + 4 * |args|) == 0 && EndFrom(m, sp, args, i)
    decreases |args| - i
  {
    SlotIn(was, m, sp, args);
    hide StrAt, ArgvAt, WordAt, Laid, EndsIn, Before, EndFrom;
    if i < |args| {
      ArgvFrom(was, m, sp, args, i + 1);
      var x := ReadOne(was, m, sp, args, i);
      SameHead(x, ArgvAt(m, sp + 4 + 4 * (i + 1)), args, i);
      EndStep(m, sp, args, i);
    } else {
      ArgvEnd(m, sp + 4 + 4 * i);
      NoneLeft(m, sp, args);
    }
  }

  lemma NoneLeft(m: seq<byte>, sp: nat, args: seq<Str>)
    ensures EndFrom(m, sp, args, |args|)
  {
  }

  lemma SameHead(x: seq<byte>, rest: seq<seq<byte>>, args: seq<Str>, i: nat)
    requires i < |args|
    ensures [x] + rest == args[i..] <==> x == args[i] && rest == args[i + 1..]
  {
    assert args[i..] == [args[i]] + args[i + 1..];
    if [x] + rest == args[i..] {
      assert ([x] + rest)[0] == x && ([x] + rest)[1..] == rest;
      assert args[i..][1..] == args[i + 1..];
    }
  }

  lemma SlotIn(was: seq<byte>, m: seq<byte>, sp: nat, args: seq<Str>)
    requires Laid(was, m, sp, args)
    ensures sp + 4 + 4 * |args| + 4 <= |m|
  {
  }

  /** The pointer in slot i leads to string i and, if the byte after it is zero, to nothing more. */
  lemma ReadOne(was: seq<byte>, m: seq<byte>, sp: nat, args: seq<Str>, i: nat) returns (x: seq<byte>)
    requires Laid(was, m, sp, args) && i < |args|
    ensures ArgvAt(m, sp + 4 + 4 * i) == [x] + ArgvAt(m, sp + 4 + 4 * (i + 1)) &&
            (x == args[i] <==> EndsIn(m, sp, args, i))
  {
    var a := StringAt(sp, args, i);
    Inside(sp, args, i);
    assert StringIn(m, sp, args, i) && PointerIn(m, sp, args, i);
    x := StrAt(m, a);
    StrRead(m, a, args[i]);
    hide StrAt, ArgvAt, Written, Before;
    ArgvStep(m, sp + 4 + 4 * i, a);
    assert sp + 4 + 4 * i + 4 == sp + 4 + 4 * (i + 1);
  }

  lemma ArgvStep(m: seq<byte>, a: nat, p: nat)
    requires a + 4 <= |m| && WordAt(m, a) == p > 0
    ensures ArgvAt(m, a) == [StrAt(m, p)] + ArgvAt(m, a + 4)
  {
  }

  lemma ArgvEnd(m: seq<byte>, a: nat)
    requires a + 4 <= |m|
    ensures ArgvAt(m, a) == [] <==> WordAt(m, a) == 0
  {
  }

  // ---- the code

  /** copyout */
  method CopyOut(mem: array<byte>, a: nat, b: seq<byte>)
    requires a + |b| <= mem.Length
    modifies mem
    ensures mem[..] == U.Splice(old(mem[..]), a, b)
  {
    var i := 0;
    while i < |b|
      invariant 0 <= i <= |b|
      invariant forall k :: 0 <= k < mem.Length ==> mem[k] == if a <= k < a + i then b[k - a] else old(mem[k])
    {
      mem[a + i] := b[i];
      i := i + 1;
    }
  }

  /** The offsets of the strings from the first pointer, and the size of the block */
  method Offsets(args: seq<Str>) returns (off: array<nat>, total: nat)
    ensures fresh(off) && off.Length == |args| + 1 && total == Total(args)
    ensures forall i :: 0 <= i <= |args| ==> off[i] == 4 * (|args| + 1) + Before(args, i)
  {
    hide Room, Before;
    BeforeNone(args);
    off := new nat[|args| + 1];
    off[0] := 4 * (|args| + 1);
    total := 0;
    var i := 1;
    while i <= |args|
      invariant 1 <= i <= |args| + 1 && total == Before(args, i - 1)
      invariant forall j :: 0 <= j < i ==> off[j] == 4 * (|args| + 1) + Before(args, j)
    {
      BeforeNext(args, i);
      var prev := off[i - 1];
      off[i] := prev + Room(args[i - 1]);
      total := total + (off[i] - prev);
      i := i + 1;
    }
    total := total + (|args| + 1) * 4 + 4;
  }

  /** The block after the first i pointers. */
  ghost predicate PointersTo(was: seq<byte>, m: seq<byte>, sp: nat, args: seq<Str>, i: nat)
    requires i <= |args|
  {
    && |m| == |was| && sp + Total(args) <= |m| && WordAt(m, sp) == |args|
    && (forall j :: 0 <= j < i ==> PointerIn(m, sp, args, j))
    && (forall k :: 0 <= k < |m| && !(sp <= k < sp + 4 + 4 * i) ==> m[k] == was[k])
  }

  /** The block after all pointers and the first i strings. */
  ghost predicate StringsTo(was: seq<byte>, m: seq<byte>, sp: nat, args: seq<Str>, i: nat)
    requires i <= |args|
  {
    && |m| == |was| && sp + Total(args) <= |m| && WordAt(m, sp) == |args|
    && (forall j :: 0 <= j < |args| ==> PointerIn(m, sp, args, j))
    && (forall j :: 0 <= j < i ==> StringIn(m, sp, args, j))
    && (forall k :: 0 <= k < |m| && !WrittenTo(sp, args, i, k) ==> m[k] == was[k])
  }

  ghost predicate WrittenTo(sp: nat, args: seq<Str>, i: nat, k: int)
    requires i <= |args|
  {
    sp <= k < sp + 4 + 4 * |args| || exists j :: 0 <= j < i && InString(sp, args, j, k)
  }

  lemma WordSpliced(m: seq<byte>, a: nat, w: u32)
    requires a + 4 <= |m|
    ensures WordAt(U.Splice(m, a, Unpack(w)), a) == w
  {
    hide Unpack, Pack;
  }

  lemma WordKept(m: seq<byte>, a: nat, at: nat, d: seq<byte>)
    requires a + 4 <= at && at + |d| <= |m|
    ensures WordAt(U.Splice(m, at, d), a) == WordAt(m, a)
  {
    hide Pack;
  }

  lemma CountWritten(was: seq<byte>, sp: nat, args: seq<Str>)
    requires sp + Total(args) <= |was| <= 0x8000_0000
    ensures |args| < 0x8000_0000 && PointersTo(was, U.Splice(was, sp, Unpack(|args|)), sp, args, 0)
  {
    WordSpliced(was, sp, |args|);
    hide WordAt, Unpack;
  }

  lemma PointerWritten(was: seq<byte>, m: seq<byte>, sp: nat, args: seq<Str>, i: nat)
    requires i < |args| && PointersTo(was, m, sp, args, i) && |m| <= 0x8000_0000
    ensures StringAt(sp, args, i) < 0x8000_0000 && sp + 4 + 4 * i + 4 <= |m|
    ensures PointersTo(was, U.Splice(m, sp + 4 + 4 * i, Unpack(StringAt(sp, args, i))), sp, args, i + 1)
  {
    Inside(sp, args, i);
    var a, at := StringAt(sp, args, i), sp + 4 + 4 * i;
    var m' := U.Splice(m, at, Unpack(a));
    WordSpliced(m, at, a);
    WordKept(m, sp, at, Unpack(a));
    hide WordAt, Unpack, StringAt, Before;
    forall j | 0 <= j < i + 1 ensures PointerIn(m', sp, args, j) {
      if j < i {
        assert PointerIn(m, sp, args, j);
        WordKept(m, sp + 4 + 4 * j, at, Unpack(a));
      }
    }
  }

  lemma StringWritten(was: seq<byte>, m: seq<byte>, sp: nat, args: seq<Str>, i: nat)
    requires i < |args| && StringsTo(was, m, sp, args, i)
    ensures StringAt(sp, args, i) + |args[i]| <= |m| &&
            StringsTo(was, U.Splice(m, StringAt(sp, args, i), args[i]), sp, args, i + 1)
  {
    Inside(sp, args, i);
    var a := StringAt(sp, args, i);
    var m' := U.Splice(m, a, args[i]);
    assert StringIn(m', sp, args, i);
    forall j | 0 <= j < i ensures StringIn(m', sp, args, j) {
      assert StringIn(m, sp, args, j);
      BeforeGrows(args, j, i);
    }
    WordKept(m, sp, a, args[i]);
    forall j | 0 <= j < |args| ensures PointerIn(m', sp, args, j) {
      assert PointerIn(m, sp, args, j);
      WordKept(m, sp + 4 + 4 * j, a, args[i]);
    }
    hide WordAt, StringAt;
    forall k | 0 <= k < |m'| && !WrittenTo(sp, args, i + 1, k) ensures m'[k] == was[k] {
      assert !InString(sp, args, i, k) && !WrittenTo(sp, args, i, k);
    }
  }

  /** The argument block of sys_execv and runprogram; it exactly fills the space below the old stack pointer. */
  method CopyArgs(mem: array<byte>, stackptr: nat, args: seq<Str>) returns (sp: nat)
    requires stackptr <= mem.Length <= 0x8000_0000 && Total(args) < stackptr
    modifies mem
    ensures sp == stackptr - Total(args) && (stackptr % 4 == 0 ==> sp % 4 == 0)
    ensures StringAt(sp, args, |args|) == stackptr && Laid(old(mem[..]), mem[..], sp, args)
  {
    hide PointersTo, StringsTo, WordAt, Unpack, Laid, Before, Room;
    ghost var was := mem[..];
    var off, total := Offsets(args);
    BlockAligned(stackptr, args);
    sp := stackptr - total;
    CopyPointers(mem, sp, args, off);
    CopyStrings(mem, sp, args, was);
    StringsDone(was, mem[..], sp, args);
  }

  method CopyPointers(mem: array<byte>, sp: nat, args: seq<Str>, off: array<nat>)
    requires sp + Total(args) <= mem.Length <= 0x8000_0000 && off.Length == |args| + 1 &&
             (off as object) != (mem as object)
    requires forall i :: 0 <= i <= |args| ==> off[i] == 4 * (|args| + 1) + Before(args, i)
    modifies mem
    ensures PointersTo(old(mem[..]), mem[..], sp, args, |args|)
  {
    hide PointersTo, WordAt, Unpack, Before, U.Splice;
    ghost var was, o := mem[..], off[..];
    var tracker := sp;
    CountWritten(was, sp, args);
    CopyOut(mem, tracker, Unpack(|args|));
    tracker := tracker + 4;
    var i := 0;
    while i < |args|
      invariant 0 <= i <= |args| && tracker == sp + 4 + 4 * i && PointersTo(was, mem[..], sp, args, i)
    {
      PointerWritten(was, mem[..], sp, args, i);
      var source := sp + off[i] + 4;
      CopyOut(mem, tracker, Unpack(source));
      tracker := tracker + 4;
      i := i + 1;
    }
  }

  method CopyStrings(mem: array<byte>, sp: nat, args: seq<Str>, ghost was: seq<byte>)
    requires PointersTo(was, mem[..], sp, args, |args|)
    modifies mem
    ensures StringsTo(was, mem[..], sp, args, |args|)
  {
    PointersDone(was, mem[..], sp, args);
    hide PointersTo, StringsTo, U.Splice, Room;
    var tracker := sp + 4 + 4 * |args| + 4;
    var i := 0;
    while i < |args|
      invariant 0 <= i <= |args| && tracker == StringAt(sp, args, i) && StringsTo(was, mem[..], sp, args, i)
    {
      StringWritten(was, mem[..], sp, args, i);
      CopyOut(mem, tracker, args[i]);
      tracker := tracker + Room(args[i]);
      i := i + 1;
    }
  }

  lemma BlockAligned(stackptr: nat, args: seq<Str>)
    requires Total(args) <= stackptr
    ensures stackptr % 4 == 0 ==> (stackptr - Total(args)) % 4 == 0
  {
    BeforeAligned(args, |args|);
    hide Before;
    RestAligned(stackptr, |args| + 2, Before(args, |args|));
  }

  lemma RestAligned(s: nat, n: nat, b: nat)
    requires b % 4 == 0 && 4 * n + b <= s
    ensures s % 4 == 0 ==> (s - (4 * n + b)) % 4 == 0
  {
    if s % 4 == 0 {
      assert s == 4 * (s / 4) && b == 4 * (b / 4);
      assert s - (4 * n + b) == 4 * (s / 4 - n - b / 4);
    }
  }

  lemma PointersDone(was: seq<byte>, m: seq<byte>, sp: nat, args: seq<Str>)
    requires PointersTo(was, m, sp, args, |args|)
    ensures StringsTo(was, m, sp, args, 0)
  {
  }

  lemma StringsDone(was: seq<byte>, m: seq<byte>, sp: nat, args: seq<Str>)
    requires StringsTo(was, m, sp, args, |args|) && sp > 0 && |m| <= 0x8000_0000
    ensures Laid(was, m, sp, args)
  {
    assert forall k :: WrittenTo(sp, args, |args|, k) <==> Written(sp, args, k);
  }

  /** sys_execv's argv: it allocates room for one pointer and writes argc + 1. They stay in the block that kmalloc gives
      exactly if there are at most three arguments. */
  method ArgvBlock(heap: H.Heap, argc: nat, page: nat) returns (argv: nat)
    requires heap.Valid() && H.Given(heap.book, page, 1)
    modifies heap, heap.refs, heap.inuse, heap.bases
    ensures heap.Valid()
    ensures argv != 0 ==> H.SizeIs(heap.View(), heap.book, argv, 16)
    ensures argv != 0 ==> (4 * (argc + 1) <= K.Extent(heap.View(), heap.book, argv) <==> argc <= 3)
  {
    hide K.Ok, K.Sound, H.Given, K.Extent;
    var used;
    argv, used := heap.Kmalloc(4, page);
    if argv != 0 {
      ghost var c :| 0 <= c < K.NSIZES && H.Fits(4, c) && H.SizeIs(heap.View(), heap.book, argv, K.Size(c));
      assert c == 0;
    }
  }
}
