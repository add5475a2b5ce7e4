/** Model of the thread system: kern/thread/thread.c and kern/thread/scheduler.c. Each section with interrupts off is
    a step. A switch is two: the current thread leaves the CPU, and then, after whatever interrupts wake others while
    the CPU idles, the scheduler dispatches the next. */
module Threads {
  import opened Lists
  import Q = Queue
  import P = PtrArray

  type Tid = nat
  type Addr = int

  const NULL: Addr := 0

  /** unborn holds the threads that have never run: they do not come back from mi_switch. */
  datatype Sys = Sys(cur: Option<Tid>, runq: seq<Tid>, sleepers: seq<Tid>, zombies: seq<Tid>, addr: map<Tid, Addr>,
                     numthreads: int, unborn: set<Tid>)

  datatype How = Ready | Sleep(a: Addr) | Zombie

  datatype Step =
    | Fork(t: Tid)   // thread_fork's section
    | Out(h: How)    // thread_yield, thread_sleep or thread_exit, up to the scheduler
    | Wake(a: Addr)  // thread_wakeup
    | Dispatch       // scheduler returns; the resumed thread exorcises

  function Cur(s: Sys): seq<Tid> { if s.cur.Some? then [s.cur.value] else [] }

  /** Every thread that exists, as often as it is listed. */
  function Census(s: Sys): multiset<Tid> {
    multiset(Cur(s)) + multiset(s.runq) + multiset(s.sleepers) + multiset(s.zombies)
  }

  predicate SleepsOn(s: Sys, a: Addr, t: Tid) { t in s.addr && s.addr[t] == a }

  /** The threads of q that sleep on a, in order, or those that do not. */
  function Pick(s: Sys, q: seq<Tid>, a: Addr, on: bool): (r: seq<Tid>)
    ensures forall t :: t in r <==> t in q && SleepsOn(s, a, t) == on
  {
    if q == [] then []
    else
      var r := Pick(s, q[..|q| - 1], a, on);
      assert q == q[..|q| - 1] + [q[|q| - 1]];
      if SleepsOn(s, a, q[|q| - 1]) == on then r + [q[|q| - 1]] else r
  }

  predicate Enabled(s: Sys, x: Step) {
    match x
    case Fork(t) => s.cur.Some? && t !in Census(s)
    case Out(_) => s.cur.Some?
    case Wake(_) => true
    case Dispatch => s.cur.None? && s.runq != []
  }

  function Next(s: Sys, x: Step): Sys
    requires Enabled(s, x)
  {
    match x
    case Fork(t) =>
      s.(runq := s.runq + [t], numthreads := s.numthreads + 1, addr := s.addr[t := NULL], unborn := s.unborn + {t})
    case Out(Ready) => s.(cur := None, runq := s.runq + Cur(s))
    case Out(Sleep(a)) => s.(cur := None, sleepers := s.sleepers + Cur(s), addr := s.addr[s.cur.value := a])
    case Out(Zombie) => s.(cur := None, zombies := s.zombies + Cur(s), numthreads := s.numthreads - 1)
    case Wake(a) => s.(runq := s.runq + Pick(s, s.sleepers, a, true), sleepers := Pick(s, s.sleepers, a, false))
    case Dispatch =>
      var t := s.runq[0];
      var s1 := s.(cur := Some(t), runq := s.runq[1..]);
      if t in s.unborn then s1.(unborn := s.unborn - {t}) else s1.(zombies := [], addr := s.addr[t := NULL])
  }

  /** Every thread is in exactly one place, and numthreads counts those that are not zombies. */
  ghost predicate Inv(s: Sys) {
    && (forall t :: Census(s)[t] <= 1)
    && s.numthreads == |Cur(s)| + |s.runq| + |s.sleepers|
    && (forall t :: t in s.unborn ==> t in s.runq)
    && (forall t :: t in s.sleepers ==> t in s.addr)
  }

  function Init(me: Tid): Sys { Sys(Some(me), [], [], [], map[me := NULL], 1, {}) }

  lemma InitInv(me: Tid)
    ensures Inv(Init(me))
  {
  }

  lemma Concat(p: seq<Tid>, q: seq<Tid>)
    ensures multiset(p + q) == multiset(p) + multiset(q)
  {
  }

  lemma {:induction false} PickParts(s: Sys, q: seq<Tid>, a: Addr)
    ensures multiset(Pick(s, q, a, true)) + multiset(Pick(s, q, a, false)) == multiset(q)
    ensures |Pick(s, q, a, true)| + |Pick(s, q, a, false)| == |q|
  {
    if q != [] {
      var p, t := q[..|q| - 1], q[|q| - 1];
      PickParts(s, p, a);
      assert q == p + [t];
      Concat(p, [t]);
      var on := SleepsOn(s, a, t);
      var l, r := Pick(s, p, a, on), Pick(s, p, a, !on);
      assert Pick(s, q, a, on) == l + [t] && Pick(s, q, a, !on) == r;
      hide Pick, SleepsOn;
      Concat(l, [t]);
    }
  }

  /** What each step does to the population: only fork adds a thread, and only zombies go. */
  function Changed(s: Sys, x: Step): multiset<Tid>
    requires Enabled(s, x)
  {
    match x
    case Fork(t) => Census(s) + multiset{t}
    case Dispatch => if s.runq[0] in s.unborn then Census(s) else Census(s) - multiset(s.zombies)
    case _ => Census(s)
  }

  lemma Conservation(s: Sys, x: Step)
    requires Enabled(s, x)
    ensures Census(Next(s, x)) == Changed(s, x)
  {
    hide Pick;
    match x
    case Fork(t) => Concat(s.runq, [t]);
    case Out(h) => OutCensus(s, h);
    case Wake(a) => WakeCensus(s, a);
    case Dispatch => DispatchCensus(s);
  }

  lemma OutCensus(s: Sys, h: How)
    requires s.cur.Some?
    ensures Census(Next(s, Out(h))) == Census(s)
  {
    match h
    case Ready => Concat(s.runq, Cur(s));
    case Sleep(a) => Concat(s.sleepers, Cur(s));
    case Zombie => Concat(s.zombies, Cur(s));
  }

  lemma WakeCensus(s: Sys, a: Addr)
    ensures Census(Next(s, Wake(a))) == Census(s)
  {
    hide Pick;
    PickParts(s, s.sleepers, a);
    Concat(s.runq, Pick(s, s.sleepers, a, true));
  }

  lemma DispatchCensus(s: Sys)
    requires Enabled(s, Dispatch)
    ensures Census(Next(s, Dispatch)) == Changed(s, Dispatch)
  {
    assert s.runq == [s.runq[0]] + s.runq[1..];
    Concat([s.runq[0]], s.runq[1..]);
  }

  lemma StepKeeps(s: Sys, x: Step)
    requires Inv(s) && Enabled(s, x)
    ensures Inv(Next(s, x))
  {
    Conservation(s, x);
    AtMostOnce(s, x);
    RestKeeps(s, x);
    hide Census, Next;
  }

  lemma AtMostOnce(s: Sys, x: Step)
    requires Enabled(s, x) && forall t :: Census(s)[t] <= 1
    ensures forall t :: Changed(s, x)[t] <= 1
  {
    hide Census;
  }

  lemma RestKeeps(s: Sys, x: Step)
    requires Inv(s) && Enabled(s, x)
    ensures var s' := Next(s, x);
            && s'.numthreads == |Cur(s')| + |s'.runq| + |s'.sleepers|
            && (forall t :: t in s'.unborn ==> t in s'.runq)
            && (forall t :: t in s'.sleepers ==> t in s'.addr)
  {
    hide Census;
    match x
    case Wake(a) => PickParts(s, s.sleepers, a);
    case Dispatch => assert s.runq == [s.runq[0]] + s.runq[1..];
    case _ =>
  }

  // ---- runs

  ghost predicate Run(s: Sys, steps: seq<Step>, s': Sys)
    decreases |steps|
  {
    if steps == [] then s' == s else Enabled(s, steps[0]) && Run(Next(s, steps[0]), steps[1..], s')
  }

  lemma {:induction false} RunKeeps(s: Sys, steps: seq<Step>, s': Sys)
    requires Inv(s) && Run(s, steps, s')
    ensures Inv(s')
    decreases |steps|
  {
    hide Inv, Next;
    if steps != [] {
      StepKeeps(s, steps[0]);
      RunKeeps(Next(s, steps[0]), steps[1..], s');
    }
  }

  function Once(q: seq<Tid>, t: Tid): int { multiset(q)[t] }

  /** In every reachable state each thread is current, ready, asleep or a zombie, in exactly one of these and there
      exactly once; numthreads counts exactly the others than zombies. */
  lemma OnePlace(me: Tid, steps: seq<Step>, s: Sys, t: Tid)
    requires Run(Init(me), steps, s)
    ensures t in Census(s) ==> Once(Cur(s), t) + Once(s.runq, t) + Once(s.sleepers, t) + Once(s.zombies, t) == 1
    ensures s.numthreads == |Census(s)| - |s.zombies|
  {
    InitInv(me);
    RunKeeps(Init(me), steps, s);
    assert Census(s)[t] <= 1;
  }

  function Dispatches(steps: seq<Step>): nat {
    if steps == [] then 0 else (if steps[0].Dispatch? then 1 else 0) + Dispatches(steps[1..])
  }

  /** The run queue loses its head at a dispatch and only grows at the tail otherwise. */
  lemma QueueMoves(s: Sys, x: Step)
    requires Enabled(s, x)
    ensures if x.Dispatch? then Next(s, x).runq == s.runq[1..] else s.runq <= Next(s, x).runq
  {
    hide Pick;
  }

  /** A ready thread with k ahead of it moves up by one at each dispatch. */
  lemma {:induction false} MovesUp(s: Sys, steps: seq<Step>, s': Sys, k: nat)
    requires Run(s, steps, s') && k < |s.runq| && Dispatches(steps) <= k
    ensures k - Dispatches(steps) < |s'.runq| && s'.runq[k - Dispatches(steps)] == s.runq[k]
    decreases |steps|
  {
    hide Next;
    if steps != [] {
      QueueMoves(s, steps[0]);
      MovesUp(Next(s, steps[0]), steps[1..], s', if steps[0].Dispatch? then k - 1 else k);
    }
  }

  /** It runs at exactly the (k+1)th. */
  lemma Turn(s: Sys, steps: seq<Step>, s': Sys, k: nat)
    requires Run(s, steps, s') && k < |s.runq| && Dispatches(steps) == k && Enabled(s', Dispatch)
    ensures Next(s', Dispatch).cur == Some(s.runq[k])
  {
    MovesUp(s, steps, s', k);
  }

  // ---- the code

  /** Far more threads than a machine has memory for */
  const MAXTHREADS: nat := 0x10_0000

  class System {
    const runqueue: Q.Queue<Tid>
    const sleepers: P.Array<Tid>
    const zombies: P.Array<Tid>
    var cur: Option<Tid>
    var addr: map<Tid, Addr>
    var numthreads: int
    var unborn: set<Tid>

    ghost predicate Shape()
      reads this, runqueue, sleepers, zombies
    {
      && runqueue.Valid() && sleepers.Valid() && zombies.Valid() && sleepers != zombies
      && runqueue.data != sleepers.v && runqueue.data != zombies.v && sleepers.v != zombies.v
    }

    ghost function View(): Sys
      requires Shape()
      reads this, runqueue, runqueue.data, sleepers, sleepers.v, zombies, zombies.v
    {
      Sys(cur, runqueue.Contents(), sleepers.Contents(), zombies.Contents(), addr, numthreads, unborn)
    }

    /** What thread_fork preallocates: the run queue, one short of the threads it may have to hold, and the sleepers. */
    ghost predicate Room()
      reads this, runqueue, sleepers
    {
      numthreads <= MAXTHREADS && runqueue.data.Length >= numthreads &&
      (sleepers.v.Length >= numthreads || (sleepers.v.Length == 0 && numthreads <= 1))
    }

    ghost predicate Valid()
      reads this, runqueue, runqueue.data, sleepers, sleepers.v, zombies, zombies.v
    {
      Shape() && Inv(View()) && Room()
    }

    /** thread_bootstrap and scheduler_bootstrap */
    constructor (me: Tid)
      ensures Valid() && View() == Init(me) && fresh(runqueue) && fresh(sleepers) && fresh(zombies)
      ensures fresh(runqueue.data) && fresh(sleepers.v) && fresh(zombies.v) && sleepers.v.Length == 0
    {
      runqueue := new Q.Queue<Tid>(32);
      sleepers := new P.Array<Tid>();
      zombies := new P.Array<Tid>();
      cur := Some(me);
      addr, numthreads, unborn := map[me := NULL], 1, {};
      new;
      hide Inv, Q.Queue.Contents, P.Array.Contents;
      InitInv(me);
    }

    /** make_runnable: it fails exactly if the queue is full and there is no memory to grow it */
    method MakeRunnable(t: Tid, noMem: bool) returns (ok: bool)
      requires Shape() && |runqueue.Contents()| <= MAXTHREADS
      modifies runqueue, runqueue.data
      ensures Shape() && (runqueue.data == old(runqueue.data) || fresh(runqueue.data)) &&
              runqueue.data.Length >= old(runqueue.data.Length)
      ensures ok <==> !(noMem && |old(runqueue.Contents())| == old(runqueue.data.Length) - 1)
      ensures noMem ==> runqueue.data == old(runqueue.data)
      ensures runqueue.Contents() == if ok then old(runqueue.Contents()) + [t] else old(runqueue.Contents())
    {
      runqueue.EmptyIs();
      ok := runqueue.AddTail(t, noMem);
    }

    /** thread_fork's preallocations; fails says which of them, if it comes to it, finds no memory. */
    method Reserve(fails: nat) returns (ok: bool)
      requires Shape() && 0 <= numthreads < MAXTHREADS
      modifies runqueue, sleepers, zombies
      ensures Shape() && View() == old(View())
      ensures ok <==> fails != 0 && fails != 1 && !(fails == 2 && old(runqueue.data.Length) <= numthreads)
      ensures runqueue.data.Length >= old(runqueue.data.Length) && sleepers.v.Length >= old(sleepers.v.Length)
      ensures ok ==> runqueue.data.Length > numthreads && sleepers.v.Length > numthreads
      ensures runqueue.data == old(runqueue.data) || fresh(runqueue.data)
    {
      hide Q.Queue.Contents, P.Array.Contents;
      ok := sleepers.Preallocate(numthreads + 1, fails == 0);
      if !ok { return; }
      ok := zombies.Preallocate(numthreads + 1, fails == 1);
      if !ok { return; }
      ok := runqueue.Preallocate(numthreads + 1, fails == 2);
    }

    /** The section of thread_fork that makes the thread known. make_runnable never needs memory. */
    method ThreadFork(t: Tid, fails: nat) returns (ok: bool)
      requires Valid() && Enabled(View(), Fork(t)) && numthreads < MAXTHREADS
      modifies this, runqueue, runqueue.data, sleepers, zombies
      ensures Valid() && View() == if ok then old(Next(View(), Fork(t))) else old(View())
      ensures ok <==> fails != 0 && fails != 1 && !(fails == 2 && old(runqueue.data.Length) <= old(numthreads))
    {
      hide Inv, Census, Pick, Q.Queue.Contents, P.Array.Contents;
      ghost var s := View();
      StepKeeps(s, Fork(t));
      InvIs(s);
      ok := Reserve(fails);
      if !ok { return; }
      ok := MakeRunnable(t, true);
      assert ok;
      addr := addr[t := NULL];
      unborn := unborn + {t};
      numthreads := numthreads + 1;
    }

    /** mi_switch's assertion that the thread found a place fails. For a yield the run queue must have been preallocated
        one short and every other thread be in it; for a sleep no thread may ever have been forked; for an exit the
        array must be full, as it is when exorcise has given its room back. */
    ghost predicate Stuck(h: How)
      reads this, runqueue, runqueue.data, sleepers, zombies
      requires Shape()
    {
      match h
      case Ready => runqueue.data.Length == numthreads && |runqueue.Contents()| == numthreads - 1
      case Sleep(_) => sleepers.v.Length == 0
      case Zombie => zombies.num == zombies.v.Length
    }

    /** mi_switch up to the scheduler, as thread_yield, thread_sleep and thread_exit come to it; ok tells that its
        assertion holds. */
    method SwitchOut(h: How, noMem: bool) returns (ok: bool)
      requires Valid() && cur.Some? && zombies.num < P.MAX
      modifies this, runqueue, runqueue.data, sleepers, sleepers.v, zombies, zombies.v
      ensures ok <==> !(noMem && old(Stuck(h)))
      ensures ok ==> Valid() && View() == old(Next(View(), Out(h)))
    {
      hide Inv, Census, Pick, Q.Queue.Contents, P.Array.Contents;
      ghost var s := View();
      StepKeeps(s, Out(h));
      InvIs(s);
      if h.Sleep? { addr := addr[cur.value := h.a]; }
      if h.Zombie? {
        assert numthreads > 0;
        numthreads := numthreads - 1;
      }
      var me := cur.value;
      cur := None;
      if h.Ready? {
        ok := MakeRunnable(me, noMem);
      } else if h.Sleep? {
        ok := sleepers.Add(me, noMem);
      } else {
        ok := zombies.Add(me, noMem);
      }
    }

    /** scheduler returns a thread; it goes on in mi_switch or, if it never ran, at its start */
    method Resume() returns (destroyed: seq<Tid>)
      requires Valid() && cur.None? && View().runq != []
      modifies this, runqueue, zombies, zombies.v
      ensures Valid() && View() == old(Next(View(), Dispatch))
      ensures destroyed == if old(View()).runq[0] in old(unborn) then [] else old(zombies.Contents())
    {
      hide Inv, Census, Pick;
      ghost var s := View();
      StepKeeps(s, Dispatch);
      NotZombie(s);
      runqueue.EmptyIs();
      var next := runqueue.RemHead();
      assert next == s.runq[0] && runqueue.Contents() == s.runq[1..];
      cur := Some(next);
      if next in unborn {
        unborn := unborn - {next};
        return [];
      }
      destroyed := Exorcise(next);
      addr := addr[next := NULL];
    }

    /** exorcise: no zombie is the current thread, and giving up the array cannot fail */
    method Exorcise(me: Tid) returns (destroyed: seq<Tid>)
      requires Shape() && cur == Some(me) && me !in zombies.Contents()
      modifies zombies
      ensures Shape() && destroyed == old(zombies.Contents()) && zombies.Contents() == []
      ensures zombies.v == old(zombies.v) || fresh(zombies.v)
      ensures old(zombies.v.Length) > 16 ==> zombies.v.Length == 0
    {
      ghost var was := zombies.Contents();
      destroyed := [];
      var i := 0;
      while i < zombies.num
        modifies {}
        invariant 0 <= i <= |was| && destroyed == was[..i]
      {
        var z := zombies.v[i];
        assert z == was[i] != me;
        destroyed := destroyed + [z];
        i := i + 1;
      }
      var ok := zombies.SetSize(0, true);
      assert ok;
    }

    /** Sleeper i goes to the run queue. */
    method MoveOver(i: nat, t: Tid, noMem: bool) returns (ok: bool)
      requires Shape() && |runqueue.Contents()| <= MAXTHREADS && i < sleepers.num
      modifies runqueue, runqueue.data, sleepers, sleepers.v
      ensures Shape() && sleepers.v == old(sleepers.v) && (runqueue.data == old(runqueue.data) || fresh(runqueue.data))
      ensures runqueue.data.Length >= old(runqueue.data.Length) && (noMem ==> runqueue.data == old(runqueue.data))
      ensures ok <==> !(noMem && |old(runqueue.Contents())| == old(runqueue.data.Length) - 1)
      ensures sleepers.Contents() == old(sleepers.Contents())[..i] + old(sleepers.Contents())[i + 1..]
      ensures ok ==> runqueue.Contents() == old(runqueue.Contents()) + [t]
      ensures zombies.Contents() == old(zombies.Contents())
    {
      hide Q.Queue.Contents, P.Array.Contents;
      sleepers.Remove(i);
      ok := MakeRunnable(t, noMem);
    }

    /** thread_wakeup: the loop looks at the same index again after taking a thread out. ok tells that its assertion
        holds: it fails exactly if there is no memory and the threads woken do not fit the run queue. */
    method Wakeup(a: Addr, noMem: bool) returns (ok: bool)
      requires Valid()
      modifies runqueue, runqueue.data, sleepers, sleepers.v
      ensures ok <==> !(noMem && |Pick(old(View()), old(View()).sleepers, a, true)| > 0 &&
                        |old(View()).runq| + |Pick(old(View()), old(View()).sleepers, a, true)|
                          >= old(runqueue.data.Length))
      ensures ok ==> Valid() && View() == old(Next(View(), Wake(a)))
    {
      hide Inv, Census, Pick, Partway, Q.Queue.Contents, P.Array.Contents;
      ghost var s, n, len := View(), 0, runqueue.data.Length;
      StepKeeps(s, Wake(a));
      InvIs(s);
      PartwayStart(s, a);
      var i := 0;
      while i < sleepers.num
        modifies runqueue, runqueue.data, sleepers, sleepers.v
        invariant 0 <= i && Shape() && Room() && sleepers.v == old(sleepers.v)
        invariant runqueue.data == old(runqueue.data) || fresh(runqueue.data)
        invariant Partway(s, a, n, i, sleepers.Contents(), runqueue.Contents())
        invariant View() == s.(runq := runqueue.Contents(), sleepers := sleepers.Contents())
        invariant noMem ==> runqueue.data.Length == len
        decreases |s.sleepers| - n
      {
        ghost var sl, rq := sleepers.Contents(), runqueue.Contents();
        PartwayStep(s, a, n, i, sl, rq);
        PartwaySize(s, a, n, i, sl, rq);
        var t := sleepers.v[i];
        sleepers.At(i);
        if addr[t] == a {
          ok := MoveOver(i, t, noMem);
          i := i - 1;
          if !ok { return; }
        }
        i := i + 1;
        n := n + 1;
      }
      PartwayEnd(s, a, n, i, sleepers.Contents(), runqueue.Contents());
      ok := true;
    }
  }

  /** The assertion can fail: the boot thread sleeps before it has forked, with no memory left. */
  method FirstSleep(me: Tid, a: Addr) returns (ok: bool)
    ensures !ok
  {
    hide Inv;
    var sys := new System(me);
    assert sys.cur == sys.View().cur && sys.numthreads == sys.View().numthreads &&
           sys.zombies.num == |sys.View().zombies|;
    ok := sys.SwitchOut(Sleep(a), true);
  }

  /** thread_wakeup after n of the sleepers: i of them stayed, the rest of the n went to the run queue. */
  ghost predicate Partway(s: Sys, a: Addr, n: nat, i: nat, sl: seq<Tid>, rq: seq<Tid>) {
    && n <= |s.sleepers| && i == |Pick(s, s.sleepers[..n], a, false)|
    && sl == Pick(s, s.sleepers[..n], a, false) + s.sleepers[n..]
    && rq == s.runq + Pick(s, s.sleepers[..n], a, true)
  }

  lemma PartwayStart(s: Sys, a: Addr)
    ensures Partway(s, a, 0, 0, s.sleepers, s.runq)
  {
  }

  lemma PartwayStep(s: Sys, a: Addr, n: nat, i: nat, sl: seq<Tid>, rq: seq<Tid>)
    requires Partway(s, a, n, i, sl, rq) && i < |sl|
    ensures n < |s.sleepers| && sl[i] in s.sleepers
    ensures if SleepsOn(s, a, sl[i]) then Partway(s, a, n + 1, i, sl[..i] + sl[i + 1..], rq + [sl[i]])
              else Partway(s, a, n + 1, i + 1, sl, rq)
  {
    hide Pick;
    var q := s.sleepers;
    PickNext(s, q, a, n);
    Around(Pick(s, q[..n], a, false), q, n);
    Assoc(s.runq, Pick(s, q[..n], a, true), [q[n]]);
  }

  lemma Around(p: seq<Tid>, q: seq<Tid>, n: nat)
    requires n <= |q| && |p| < |p + q[n..]|
    ensures n < |q| && (p + q[n..])[|p|] == q[n] && q[n] in q
    ensures (p + q[n..])[..|p|] + (p + q[n..])[|p| + 1..] == p + [] + q[n + 1..] &&
            p + q[n..] == p + [q[n]] + q[n + 1..]
  {
  }

  lemma Assoc(p: seq<Tid>, q: seq<Tid>, r: seq<Tid>)
    ensures p + (q + r) == p + q + r && p + (q + []) == p + q
  {
  }

  lemma {:induction false} PickMore(s: Sys, q: seq<Tid>, a: Addr, n: nat)
    requires n <= |q|
    ensures |Pick(s, q[..n], a, true)| <= |Pick(s, q, a, true)|
    decreases |q|
  {
    if n < |q| {
      var p := q[..|q| - 1];
      assert p[..n] == q[..n];
      PickMore(s, p, a, n);
    } else {
      assert q[..n] == q;
    }
  }

  lemma PartwaySize(s: Sys, a: Addr, n: nat, i: nat, sl: seq<Tid>, rq: seq<Tid>)
    requires Partway(s, a, n, i, sl, rq) && i < |sl| && Inv(s)
    ensures |rq| <= s.numthreads && n < |s.sleepers|
    ensures SleepsOn(s, a, sl[i]) ==> |rq| + 1 <= |s.runq| + |Pick(s, s.sleepers, a, true)|
  {
    hide Inv, Pick;
    InvIs(s);
    var q := s.sleepers;
    Around(Pick(s, q[..n], a, false), q, n);
    PickNext(s, q, a, n);
    PickMore(s, q, a, n + 1);
    PickShort(s, q, a);
    PickMore(s, q, a, n);
  }

  lemma {:induction false} PickShort(s: Sys, q: seq<Tid>, a: Addr)
    ensures |Pick(s, q, a, true)| <= |q|
  {
    if q != [] { PickShort(s, q[..|q| - 1], a); }
  }

  lemma PartwayEnd(s: Sys, a: Addr, n: nat, i: nat, sl: seq<Tid>, rq: seq<Tid>)
    requires Partway(s, a, n, i, sl, rq) && i >= |sl|
    ensures sl == Pick(s, s.sleepers, a, false) && rq == s.runq + Pick(s, s.sleepers, a, true)
  {
    assert s.sleepers[..n] == s.sleepers;
  }

  lemma InvIs(s: Sys)
    requires Inv(s)
    ensures s.numthreads == |Cur(s)| + |s.runq| + |s.sleepers|
    ensures forall t :: t in s.sleepers ==> t in s.addr
  {
    hide Census;
  }

  lemma PickNext(s: Sys, q: seq<Tid>, a: Addr, n: nat)
    requires n < |q|
    ensures Pick(s, q[..n + 1], a, true) == Pick(s, q[..n], a, true) + if SleepsOn(s, a, q[n]) then [q[n]] else []
    ensures Pick(s, q[..n + 1], a, false) == Pick(s, q[..n], a, false) + if SleepsOn(s, a, q[n]) then [] else [q[n]]
  {
    assert q[..n + 1][..n] == q[..n];
  }

  lemma NotZombie(s: Sys)
    requires Inv(s) && s.runq != []
    ensures s.runq[0] !in s.zombies
  {
    assert s.runq[0] in multiset(s.runq);
    assert Census(s)[s.runq[0]] <= 1;
  }
}
