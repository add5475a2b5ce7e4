/** Model of locks and condition variables (kern/thread/synch.c under OPT_A1) as a state machine: every
    splhigh..splx section is one step, and steps of any threads interleave in any order. */
module Synch {
  import opened Lists

  type Tid = nat
  type Lid = nat
  type Cid = nat

  /** struct lock: the holder and the queue of waiting threads; inside records the threads whose lock_acquire has
      returned and that have not called lock_release since. */
  datatype Lock = Lock(held: Option<Tid>, queue: seq<Tid>, inside: set<Tid>)

  /** Where a thread is with respect to the primitives. */
  datatype Pc =
    | Outside                    // in its own code
    | InAcquire(l: Lid)          // in lock_acquire, past the thread_sleep call
    | CvGap(c: Cid, l: Lid)      // in cv_wait, between lock_release and splhigh
    | InWait(c: Cid, l: Lid)     // in cv_wait, past the thread_sleep call

  /** asleep maps a sleeping thread to the address it sleeps on, here always the address of a thread. */
  datatype State = State(locks: map<Lid, Lock>, cvs: map<Cid, seq<Tid>>, pc: map<Tid, Pc>, asleep: map<Tid, Tid>)

  datatype Step =
    | Acquire(t: Tid, l: Lid)
    | AcquireResume(t: Tid)
    | Release(t: Tid, l: Lid)
    | WaitStart(t: Tid, c: Cid, l: Lid)
    | WaitSleep(t: Tid)
    | WaitResume(t: Tid)
    | Signal(t: Tid, c: Cid, l: Lid)
    | Broadcast(t: Tid, c: Cid, l: Lid)

  // ---- the sections

  /** thread_wakeup: every thread sleeping on that address becomes runnable. */
  function Wakeup(s: State, addr: Tid): State {
    s.(asleep := map t | t in s.asleep && s.asleep[t] != addr :: s.asleep[t])
  }

  /** lock_acquire up to thread_sleep or, if the lock is free, to its end */
  function DoAcquire(s: State, t: Tid, l: Lid): State
    requires l in s.locks
  {
    var k := s.locks[l];
    if k.held.Some? then
      s.(locks := s.locks[l := k.(queue := k.queue + [t])], pc := s.pc[t := InAcquire(l)], asleep := s.asleep[t := t])
    else
      Entered(s, t, l)
  }

  /** The end of lock_acquire: held = curthread, without a test. */
  function Entered(s: State, t: Tid, l: Lid): State
    requires l in s.locks
  {
    s.(locks := s.locks[l := s.locks[l].(held := Some(t), inside := s.locks[l].inside + {t})], pc := s.pc[t := Outside])
  }

  /** lock_release: ownership passes to the head of the queue, which is woken; nobody waiting frees the lock. */
  function DoRelease(s: State, t: Tid, l: Lid): State
    requires l in s.locks
  {
    var k := s.locks[l];
    if k.queue != [] then
      Wakeup(s.(locks := s.locks[l := Lock(Some(k.queue[0]), k.queue[1..], k.inside - {t})]), k.queue[0])
    else
      s.(locks := s.locks[l := Lock(None, [], k.inside - {t})])
  }

  /** cv_signal and one round of cv_broadcast */
  function WakeHead(s: State, c: Cid): State
    requires c in s.cvs && s.cvs[c] != []
  {
    Wakeup(s.(cvs := s.cvs[c := s.cvs[c][1..]]), s.cvs[c][0])
  }

  function WakeAll(s: State, c: Cid): (s': State)
    requires c in s.cvs
    ensures s'.locks == s.locks && s'.pc == s.pc && s'.cvs.Keys == s.cvs.Keys && s'.asleep.Keys <= s.asleep.Keys
    decreases if c in s.cvs then |s.cvs[c]| else 0
  {
    if s.cvs[c] == [] then s else WakeAll(WakeHead(s, c), c)
  }

  /** When a thread may take a step. Callers use a lock they are not inside for acquire and one they are inside
      otherwise; the primitives themselves demand no more. */
  predicate Enabled(s: State, x: Step) {
    && x.t in s.pc
    && match x
       case Acquire(t, l) => s.pc[t] == Outside && l in s.locks && t !in s.locks[l].inside
       case Release(t, l) => s.pc[t] == Outside && l in s.locks && t in s.locks[l].inside
       case WaitStart(t, c, l) => s.pc[t] == Outside && l in s.locks && c in s.cvs && t in s.locks[l].inside
       case Signal(t, c, l) => s.pc[t] == Outside && l in s.locks && c in s.cvs && t in s.locks[l].inside
       case Broadcast(t, c, l) => s.pc[t] == Outside && l in s.locks && c in s.cvs && t in s.locks[l].inside
       case AcquireResume(t) => s.pc[t].InAcquire? && t !in s.asleep && s.pc[t].l in s.locks
       case WaitSleep(t) => s.pc[t].CvGap? && s.pc[t].c in s.cvs
       case WaitResume(t) => s.pc[t].InWait? && t !in s.asleep && s.pc[t].l in s.locks
  }

  function Next(s: State, x: Step): State
    requires Enabled(s, x)
  {
    match x
    case Acquire(t, l) => DoAcquire(s, t, l)
    case AcquireResume(t) => Entered(s, t, s.pc[t].l)
    case Release(t, l) => DoRelease(s, t, l)
    case WaitStart(t, c, l) => DoRelease(s, t, l).(pc := s.pc[t := CvGap(c, l)])
    case WaitSleep(t) =>
      var p := s.pc[t];
      s.(cvs := s.cvs[p.c := s.cvs[p.c] + [t]], pc := s.pc[t := InWait(p.c, p.l)], asleep := s.asleep[t := t])
    case WaitResume(t) => DoAcquire(s, t, s.pc[t].l)
    case Signal(t, c, l) => if s.cvs[c] == [] then s else WakeHead(s, c)
    case Broadcast(t, c, l) => WakeAll(s, c)
  }

  // ---- the invariant

  /** Lock l: its queue holds exactly the threads asleep in lock_acquire on it; the holder is the thread inside or
      the one just handed the lock; it is not free while anyone waits. */
  ghost predicate LockOk(s: State, l: Lid)
    requires l in s.locks
  {
    var k := s.locks[l];
    && NoDup(k.queue) && (k.held == None ==> k.queue == [])
    && (forall t :: t in k.queue ==> t in s.pc && s.pc[t] == InAcquire(l) && t in s.asleep && s.asleep[t] == t)
    && (forall t :: t in s.pc && s.pc[t] == InAcquire(l) ==> if t in s.asleep then t in k.queue else k.held == Some(t))
    && (forall t :: t in s.locks[l].inside ==> k.held == Some(t) && t in s.pc && s.pc[t] != InAcquire(l))
    && (k.held.Some? ==> Holder(s, l, k.held.value))
  }

  /** The holder is inside, or is a woken acquirer that has yet to return. */
  ghost predicate Holder(s: State, l: Lid, t: Tid)
    requires l in s.locks
  {
    && t in s.pc && t !in s.locks[l].queue
    && (t in s.locks[l].inside || (s.pc[t] == InAcquire(l) && t !in s.asleep))
  }

  ghost predicate CvOk(s: State, c: Cid)
    requires c in s.cvs
  {
    && NoDup(s.cvs[c])
    && (forall t :: t in s.cvs[c] ==>
          t in s.pc && s.pc[t].InWait? && s.pc[t].c == c && t in s.asleep && s.asleep[t] == t)
    && (forall t :: t in s.pc && s.pc[t].InWait? && s.pc[t].c == c && t in s.asleep ==> t in s.cvs[c])
  }

  /** Every sleeper sleeps on its own address. */
  ghost predicate SelfAddressed(s: State) {
    forall t :: t in s.asleep ==> s.asleep[t] == t
  }

  ghost predicate Inv(s: State) {
    && SelfAddressed(s)
    && (forall l :: l in s.locks ==> LockOk(s, l))
    && (forall c :: c in s.cvs ==> CvOk(s, c))
    && (forall t :: t in s.asleep ==> t in s.pc && (s.pc[t].InAcquire? || s.pc[t].InWait?))
    && (forall t :: t in s.pc ==> PcOk(s, t, s.pc[t]))
  }

  predicate PcOk(s: State, t: Tid, p: Pc) {
    match p
    case Outside => true
    case InAcquire(l) => l in s.locks
    case CvGap(c, l) => c in s.cvs && l in s.locks && t !in s.locks[l].inside
    case InWait(c, l) => c in s.cvs && l in s.locks && t !in s.locks[l].inside
  }

  /** lock_create, cv_create and threads that have not called anything yet */
  function Init(ts: set<Tid>, ls: set<Lid>, cs: set<Cid>): State {
    State(map l | l in ls :: Lock(None, [], {}), map c | c in cs :: [], map t | t in ts :: Outside, map[])
  }

  lemma InitInv(ts: set<Tid>, ls: set<Lid>, cs: set<Cid>)
    ensures Inv(Init(ts, ls, cs))
  {
  }

  // ---- every step keeps it

  /** Only thread t has moved. */
  ghost predicate OnlyMoved(s: State, s': State, t: Tid) {
    && t in s.pc && t in s'.pc && s'.pc == s.pc[t := s'.pc[t]]
    && (forall u :: u != t ==> (u in s'.asleep <==> u in s.asleep))
    && (forall u :: u in s'.asleep ==> s'.asleep[u] == u)
  }

  lemma LockFrame(s: State, s': State, t: Tid, m: Lid)
    requires m in s.locks && m in s'.locks && LockOk(s, m) && s'.locks[m] == s.locks[m]
    requires OnlyMoved(s, s', t) && s.pc[t] != InAcquire(m) && s'.pc[t] != InAcquire(m)
    ensures LockOk(s', m)
  {
  }

  predicate AsleepOn(s: State, t: Tid, c: Cid) {
    t in s.pc && s.pc[t].InWait? && s.pc[t].c == c && t in s.asleep
  }

  lemma CvFrame(s: State, s': State, t: Tid, c: Cid)
    requires c in s.cvs && c in s'.cvs && CvOk(s, c) && s'.cvs[c] == s.cvs[c]
    requires OnlyMoved(s, s', t)
    requires !AsleepOn(s, t, c) && !AsleepOn(s', t, c)
    ensures CvOk(s', c)
  {
  }

  /** Moving one thread keeps the invariant if it does so at the lock and the condition variable concerned. */
  lemma MoveKeeps(s: State, s': State, t: Tid, ls: set<Lid>, cs: set<Cid>)
    requires Inv(s) && OnlyMoved(s, s', t) && s'.locks.Keys == s.locks.Keys && s'.cvs.Keys == s.cvs.Keys
    requires forall m :: m in s.locks && m !in ls ==>
               s'.locks[m] == s.locks[m] && s.pc[t] != InAcquire(m) && s'.pc[t] != InAcquire(m)
    requires forall m :: m in s.locks && m in ls ==> LockOk(s', m)
    requires forall m :: m in s.locks ==> s'.locks[m].inside <= s.locks[m].inside + {t}
    requires forall c :: c in s.cvs && c !in cs ==> s'.cvs[c] == s.cvs[c] && !AsleepOn(s, t, c) && !AsleepOn(s', t, c)
    requires forall c :: c in s.cvs && c in cs ==> CvOk(s', c)
    requires PcOk(s', t, s'.pc[t]) && (t in s'.asleep ==> s'.pc[t].InAcquire? || s'.pc[t].InWait?)
    ensures Inv(s')
  {
    hide LockOk, CvOk;
    forall m | m in s'.locks ensures LockOk(s', m) { if m !in ls { LockFrame(s, s', t, m); } }
    forall c | c in s'.cvs ensures CvOk(s', c) { if c !in cs { CvFrame(s, s', t, c); } }
    forall u | u in s'.pc ensures PcOk(s', u, s'.pc[u]) { if u != t { assert PcOk(s, u, s.pc[u]); } }
  }

  lemma AcquireKeeps(s: State, t: Tid, l: Lid)
    requires Inv(s) && t in s.pc && t !in s.asleep && l in s.locks && t !in s.locks[l].inside
    requires s.pc[t] == Outside || (s.pc[t].InWait? && s.pc[t].l == l)
    ensures Inv(DoAcquire(s, t, l))
  {
    hide Inv, CvOk, LockOk;
    InvParts(s, l);
    AcquireLock(s, t, l);
    MoveKeeps(s, DoAcquire(s, t, l), t, {l}, {});
  }

  lemma AcquireLock(s: State, t: Tid, l: Lid)
    requires l in s.locks && LockOk(s, l) && SelfAddressed(s) && t in s.pc && t !in s.asleep && t !in s.locks[l].inside
    requires s.pc[t] != InAcquire(l)
    ensures OnlyMoved(s, DoAcquire(s, t, l), t) && LockOk(DoAcquire(s, t, l), l)
  {
    var s', q := DoAcquire(s, t, l), s.locks[l].queue;
    if s.locks[l].held.Some? {
      assert s'.locks[l].queue == q + [t];
      assert forall u :: u in q + [t] <==> u in q || u == t;
    }
  }

  /** A woken acquirer already owns the lock: the untested assignment changes nothing. */
  lemma ResumeKeeps(s: State, t: Tid, l: Lid)
    requires Inv(s) && t in s.pc && s.pc[t] == InAcquire(l) && t !in s.asleep && l in s.locks
    ensures s.locks[l].held == Some(t) && s.locks[l].inside == {} && Inv(Entered(s, t, l))
  {
    hide CvOk, Inv, LockOk;
    InvParts(s, l);
    ResumeLock(s, t, l);
    MoveKeeps(s, Entered(s, t, l), t, {l}, {});
  }

  lemma ResumeLock(s: State, t: Tid, l: Lid)
    requires l in s.locks && LockOk(s, l) && SelfAddressed(s) && t in s.pc && s.pc[t] == InAcquire(l) && t !in s.asleep
    ensures s.locks[l].held == Some(t) && s.locks[l].inside == {}
    ensures OnlyMoved(s, Entered(s, t, l), t) && LockOk(Entered(s, t, l), l)
  {
  }

  /** A wakeup of a thread that sleeps on its own address wakes it and nobody else. */
  lemma WakesOne(s: State, t: Tid)
    requires t in s.asleep && SelfAddressed(s)
    ensures Wakeup(s, t) == s.(asleep := s.asleep - {t})
  {
    assert Wakeup(s, t).asleep == s.asleep - {t};
  }

  lemma InvParts(s: State, l: Lid)
    requires Inv(s) && l in s.locks
    ensures LockOk(s, l) && SelfAddressed(s)
  {
    hide LockOk, CvOk;
  }

  lemma ReleaseKeeps(s: State, t: Tid, l: Lid)
    requires Inv(s) && t in s.pc && s.pc[t] == Outside && l in s.locks && t in s.locks[l].inside
    ensures s.locks[l].held == Some(t) && Inv(DoRelease(s, t, l))
    ensures DoRelease(s, t, l).pc == s.pc && DoRelease(s, t, l).cvs == s.cvs &&
            DoRelease(s, t, l).locks.Keys == s.locks.Keys
    ensures t !in DoRelease(s, t, l).locks[l].inside
  {
    hide CvOk, Inv, LockOk, DoRelease;
    InvParts(s, l);
    ReleaseLock(s, t, l);
    NotAsleep(s, t);
    var s', q := DoRelease(s, t, l), s.locks[l].queue;
    MoveKeeps(s, s', if q == [] then t else q[0], {l}, {});
  }

  /** Whoever releases holds; the head of the queue, if any, is what moves. */
  lemma ReleaseLock(s: State, t: Tid, l: Lid)
    requires l in s.locks && LockOk(s, l) && SelfAddressed(s) && t in s.pc && s.pc[t] == Outside &&
             t in s.locks[l].inside
    ensures s.locks[l].held == Some(t)
    ensures var s', q := DoRelease(s, t, l), s.locks[l].queue; var u := if q == [] then t else q[0];
            && OnlyMoved(s, s', u) && s'.pc == s.pc && s'.cvs == s.cvs
            && (q != [] ==> u !in s'.asleep && s.pc[u] == InAcquire(l))
            && s'.locks.Keys == s.locks.Keys && (forall m :: m in s.locks && m != l ==> s'.locks[m] == s.locks[m])
            && s'.asleep.Keys <= s.asleep.Keys
            && LockOk(s', l) && s'.locks[l].inside == s.locks[l].inside - {t}
  {
    var s', q := DoRelease(s, t, l), s.locks[l].queue;
    if q != [] {
      WakesOne(s, q[0]);
      assert s'.asleep == s.asleep - {q[0]};
      Tail(q);
    }
  }

  lemma Tail(q: seq<Tid>)
    requires q != [] && NoDup(q)
    ensures NoDup(q[1..]) && forall u :: u in q[1..] <==> u in q && u != q[0]
  {
    forall u | u in q && u != q[0] ensures u in q[1..] {
      var k :| 0 <= k < |q| && q[k] == u;
      assert q[1..][k - 1] == u;
    }
  }

  lemma NotAsleep(s: State, t: Tid)
    requires Inv(s) && t in s.pc
    ensures s.pc[t] == Outside ==> t !in s.asleep
    ensures PcOk(s, t, s.pc[t])
  {
    hide LockOk, CvOk;
  }

  lemma GapKeeps(s: State, t: Tid, c: Cid, l: Lid)
    requires Inv(s) && t in s.pc && s.pc[t] == Outside && c in s.cvs && l in s.locks && t !in s.locks[l].inside
    ensures Inv(s.(pc := s.pc[t := CvGap(c, l)]))
  {
    hide CvOk, Inv, LockOk;
    InvParts(s, l);
    NotAsleep(s, t);
    MoveKeeps(s, s.(pc := s.pc[t := CvGap(c, l)]), t, {}, {});
  }

  lemma SleepKeeps(s: State, t: Tid)
    requires Inv(s) && Enabled(s, WaitSleep(t))
    ensures Inv(Next(s, WaitSleep(t)))
  {
    hide CvOk, Inv, LockOk;
    var p, s' := s.pc[t], Next(s, WaitSleep(t));
    NotAsleep(s, t);
    CvPart(s, p.c);
    SleepCv(s, t, p.c, p.l);
    MoveKeeps(s, s', t, {}, {p.c});
  }

  lemma CvPart(s: State, c: Cid)
    requires Inv(s) && c in s.cvs
    ensures CvOk(s, c) && SelfAddressed(s) && forall t :: t in s.asleep ==>
              t in s.pc && (s.pc[t].InAcquire? || s.pc[t].InWait?)
  {
    hide LockOk, CvOk;
  }

  lemma SleepCv(s: State, t: Tid, c: Cid, l: Lid)
    requires c in s.cvs && CvOk(s, c) && SelfAddressed(s) && t in s.pc && s.pc[t] == CvGap(c, l) && t !in s.asleep
    ensures var s' := s.(cvs := s.cvs[c := s.cvs[c] + [t]], pc := s.pc[t := InWait(c, l)], asleep := s.asleep[t := t]);
            OnlyMoved(s, s', t) && CvOk(s', c)
  {
    assert forall u :: u in s.cvs[c] + [t] <==> u in s.cvs[c] || u == t;
  }

  lemma WakeHeadKeeps(s: State, c: Cid)
    requires Inv(s) && c in s.cvs && s.cvs[c] != []
    ensures Inv(WakeHead(s, c))
  {
    hide CvOk, Inv, LockOk, WakeHead;
    CvPart(s, c);
    WakeCv(s, c);
    NotAsleep(s, s.cvs[c][0]);
    MoveKeeps(s, WakeHead(s, c), s.cvs[c][0], {}, {c});
  }

  lemma WakeCv(s: State, c: Cid)
    requires c in s.cvs && s.cvs[c] != [] && CvOk(s, c) && SelfAddressed(s)
    ensures var s', h := WakeHead(s, c), s.cvs[c][0];
            && OnlyMoved(s, s', h) && CvOk(s', c) && s'.pc == s.pc && s'.locks == s.locks && h !in s'.asleep
            && s'.cvs == s.cvs[c := s.cvs[c][1..]] && s.pc[h].InWait? && s.pc[h].c == c
  {
    WakesOne(s, s.cvs[c][0]);
    assert WakeHead(s, c).asleep == s.asleep - {s.cvs[c][0]};
    Tail(s.cvs[c]);
  }

  lemma {:induction false} WakeAllKeeps(s: State, c: Cid)
    requires Inv(s) && c in s.cvs
    ensures Inv(WakeAll(s, c))
    decreases |s.cvs[c]|
  {
    hide Inv;
    if s.cvs[c] != [] {
      WakeHeadKeeps(s, c);
      WakeAllKeeps(WakeHead(s, c), c);
    }
  }

  lemma StepKeeps(s: State, x: Step)
    requires Inv(s) && Enabled(s, x)
    ensures Inv(Next(s, x))
  {
    hide Inv, DoAcquire, DoRelease, WakeAll, WakeHead, Entered;
    NotAsleep(s, x.t);
    match x
    case Acquire(t, l) => AcquireKeeps(s, t, l);
    case AcquireResume(t) => ResumeKeeps(s, t, s.pc[t].l);
    case Release(t, l) => ReleaseKeeps(s, t, l);
    case WaitStart(t, c, l) =>
      ReleaseKeeps(s, t, l);
      GapKeeps(DoRelease(s, t, l), t, c, l);
    case WaitSleep(t) => SleepKeeps(s, t);
    case WaitResume(t) => AcquireKeeps(s, t, s.pc[t].l);
    case Signal(t, c, l) => if s.cvs[c] != [] { WakeHeadKeeps(s, c); }
    case Broadcast(t, c, l) => WakeAllKeeps(s, c);
  }

  // ---- runs

  /** steps leads from s to s', every step being one some thread could take. */
  ghost predicate Run(s: State, steps: seq<Step>, s': State)
    decreases |steps|
  {
    if steps == [] then s' == s else Enabled(s, steps[0]) && Run(Next(s, steps[0]), steps[1..], s')
  }

  lemma {:induction false} RunKeeps(s: State, steps: seq<Step>, s': State)
    requires Inv(s) && Run(s, steps, s')
    ensures Inv(s')
    decreases |steps|
  {
    hide Inv, Next;
    if steps != [] {
      StepKeeps(s, steps[0]);
      RunKeeps(Next(s, steps[0]), steps[1..], s');
    }
  }

  /** In every reachable state: at most one thread is in the critical section; the one that is passes lock_release's
      assertion; a woken acquirer owns the lock before it runs; and the lock is not free while threads queue. */
  lemma Safety(ts: set<Tid>, ls: set<Lid>, cs: set<Cid>, steps: seq<Step>, s: State, l: Lid)
    requires Run(Init(ts, ls, cs), steps, s) && l in s.locks
    ensures forall t, u :: t in s.locks[l].inside && u in s.locks[l].inside ==> t == u
    ensures forall t :: t in s.locks[l].inside ==> s.locks[l].held == Some(t)
    ensures forall t :: t in s.pc && s.pc[t] == InAcquire(l) && t !in s.asleep ==>
              s.locks[l].held == Some(t) && s.locks[l].inside == {}
    ensures s.locks[l].held == None ==> s.locks[l].queue == []
  {
    InitInv(ts, ls, cs);
    RunKeeps(Init(ts, ls, cs), steps, s);
    assert LockOk(s, l);
  }

  /** A sleeping thread sleeps on its own address and stands in exactly one wait queue, once. */
  lemma OneQueue(ts: set<Tid>, ls: set<Lid>, cs: set<Cid>, steps: seq<Step>, s: State, t: Tid)
    requires Run(Init(ts, ls, cs), steps, s) && t in s.asleep
    ensures s.asleep[t] == t && t in s.pc && (s.pc[t].InAcquire? || s.pc[t].InWait?)
    ensures forall l :: l in s.locks ==> NoDup(s.locks[l].queue) && (t in s.locks[l].queue <==> s.pc[t] == InAcquire(l))
    ensures forall c :: c in s.cvs ==> NoDup(s.cvs[c]) && (t in s.cvs[c] <==> s.pc[t].InWait? && s.pc[t].c == c)
    ensures (s.pc[t].InAcquire? ==> s.pc[t].l in s.locks) && (s.pc[t].InWait? ==> s.pc[t].c in s.cvs)
  {
    InitInv(ts, ls, cs);
    RunKeeps(Init(ts, ls, cs), steps, s);
    NotAsleep(s, t);
    forall l | l in s.locks ensures NoDup(s.locks[l].queue) && (t in s.locks[l].queue <==> s.pc[t] == InAcquire(l)) {
      assert LockOk(s, l);
    }
    forall c | c in s.cvs ensures NoDup(s.cvs[c]) && (t in s.cvs[c] <==> s.pc[t].InWait? && s.pc[t].c == c) {
      assert CvOk(s, c);
    }
  }

  // ---- first come, first served

  predicate Releases(x: Step, l: Lid) {
    (x.Release? && x.l == l) || (x.WaitStart? && x.l == l)
  }

  function CountReleases(steps: seq<Step>, l: Lid): nat {
    if steps == [] then 0 else (if Releases(steps[0], l) then 1 else 0) + CountReleases(steps[1..], l)
  }

  /** A release hands the lock to the head of the queue; any other step at most adds to the tail. */
  lemma QueueStep(s: State, x: Step, l: Lid)
    requires Inv(s) && Enabled(s, x) && l in s.locks
    ensures l in Next(s, x).locks
    ensures var k, k' := s.locks[l], Next(s, x).locks[l];
            if Releases(x, l) then k.queue != [] ==> k'.held == Some(k.queue[0]) && k'.queue == k.queue[1..]
            else k.queue <= k'.queue && (k.held.Some? ==> k'.held == k.held)
  {
    hide LockOk, CvOk;
    match x
    case AcquireResume(t) => InvParts(s, s.pc[t].l); ResumeLock(s, t, s.pc[t].l);
    case _ =>
  }

  lemma {:induction false} HolderStays(s: State, steps: seq<Step>, s': State, l: Lid, t: Tid)
    requires Inv(s) && Run(s, steps, s') && l in s.locks && s.locks[l].held == Some(t) && CountReleases(steps, l) == 0
    ensures l in s'.locks && s'.locks[l].held == Some(t)
    decreases |steps|
  {
    hide Inv, Next;
    if steps != [] {
      StepKeeps(s, steps[0]);
      QueueStep(s, steps[0], l);
      HolderStays(Next(s, steps[0]), steps[1..], s', l, t);
    }
  }

  /** A waiter with k threads ahead is still queued, n places further on, after n <= k releases, and holds the lock
      after exactly k + 1 of them. */
  lemma {:induction false} WaiterTurn(s: State, steps: seq<Step>, s': State, l: Lid, t: Tid, k: nat)
    requires Inv(s) && Run(s, steps, s') && l in s.locks && k < |s.locks[l].queue| && s.locks[l].queue[k] == t
    requires CountReleases(steps, l) <= k + 1
    ensures l in s'.locks
    ensures var n := CountReleases(steps, l); var q := s'.locks[l].queue;
            if n <= k then k - n < |q| && q[k - n] == t else s'.locks[l].held == Some(t)
    decreases |steps|
  {
    hide Inv, Next;
    if steps != [] {
      var s1 := Next(s, steps[0]);
      StepKeeps(s, steps[0]);
      QueueStep(s, steps[0], l);
      if !Releases(steps[0], l) {
        WaiterTurn(s1, steps[1..], s', l, t, k);
      } else if k == 0 {
        HolderStays(s1, steps[1..], s', l, t);
      } else {
        WaiterTurn(s1, steps[1..], s', l, t, k - 1);
      }
    }
  }

  // ---- what cv_wait does not promise

  /** A broadcast wakes exactly the sleepers in the queue of c. It reaches everyone who has called cv_wait on c exactly
      when nobody is between cv_wait's lock_release and its splhigh: the two are not one atomic section. */
  lemma {:induction false} BroadcastReaches(s: State, c: Cid)
    requires Inv(s) && c in s.cvs
    ensures (forall t :: t in s.pc && (s.pc[t].CvGap? || s.pc[t].InWait?) && s.pc[t].c == c ==>
               s.pc[t].InWait? && t !in WakeAll(s, c).asleep) <==>
            (forall t :: t in s.pc && s.pc[t].CvGap? ==> s.pc[t].c != c)
    ensures forall t :: t in WakeAll(s, c).asleep <==> t in s.asleep && t !in s.cvs[c]
  {
    AllAwake(s, c);
    forall t | t in s.asleep && t !in s.cvs[c] ensures t in WakeAll(s, c).asleep { OthersSleep(s, c, t); }
    assert CvOk(s, c);
  }

  lemma {:induction false} OthersSleep(s: State, c: Cid, t: Tid)
    requires Inv(s) && c in s.cvs && t in s.asleep && t !in s.cvs[c]
    ensures t in WakeAll(s, c).asleep
    decreases |s.cvs[c]|
  {
    if s.cvs[c] != [] {
      WakeHeadKeeps(s, c);
      CvPart(s, c);
      hide Inv, CvOk;
      OthersSleep(WakeHead(s, c), c, t);
    }
  }

  lemma {:induction false} AllAwake(s: State, c: Cid)
    requires Inv(s) && c in s.cvs
    ensures forall t :: t in s.pc && s.pc[t].InWait? && s.pc[t].c == c ==> t !in WakeAll(s, c).asleep
    decreases |s.cvs[c]|
  {
    if s.cvs[c] != [] {
      WakeHeadKeeps(s, c);
      AllAwake(WakeHead(s, c), c);
    } else {
      assert CvOk(s, c);
    }
  }

  /** Thread 0 in the gap, thread 1 somewhere, nothing held and nobody queued. */
  const GAP: State := State(map[0 := Lock(None, [], {})], map[0 := []], map[0 := CvGap(0, 0), 1 := Outside], map[])

  /** Reached by thread 0 acquiring the lock and calling cv_wait. */
  lemma GapReached()
    ensures Run(Init({0, 1}, {0}, {0}), [Acquire(0, 0), WaitStart(0, 0, 0)], GAP)
  {
    var s0 := Init({0, 1}, {0}, {0});
    var s1 := State(map[0 := Lock(Some(0), [], {0})], map[0 := []], map[0 := Outside, 1 := Outside], map[]);
    assert s0.locks[0].inside + {0} == {0} && s1.locks[0].inside - {0} == {};
    assert Enabled(s0, Acquire(0, 0)) && Next(s0, Acquire(0, 0)).locks == s1.locks && Next(s0, Acquire(0, 0)) == s1;
    assert Enabled(s1, WaitStart(0, 0, 0)) && Next(s1, WaitStart(0, 0, 0)) == GAP;
    RunOne(s1, WaitStart(0, 0, 0), [], GAP);
    RunOne(s0, Acquire(0, 0), [WaitStart(0, 0, 0)], GAP);
  }

  /** A signal given in that gap is lost: thread 0 goes to sleep although thread 1 signalled after its cv_wait call. */
  lemma LostSignal() returns (s: State)
    ensures Run(GAP, [Acquire(1, 0), Signal(1, 0, 0), WaitSleep(0)], s) && 0 in s.asleep
  {
    var s1 := State(map[0 := Lock(Some(1), [], {1})], map[0 := []], map[0 := CvGap(0, 0), 1 := Outside], map[]);
    assert GAP.locks[0].inside + {1} == {1};
    assert Enabled(GAP, Acquire(1, 0)) && Next(GAP, Acquire(1, 0)).locks == s1.locks && Next(GAP, Acquire(1, 0)) == s1;
    assert Enabled(s1, Signal(1, 0, 0)) && Next(s1, Signal(1, 0, 0)) == s1;
    s := Next(s1, WaitSleep(0));
    RunOne(s1, WaitSleep(0), [], s);
    RunOne(s1, Signal(1, 0, 0), [WaitSleep(0)], s);
    RunOne(GAP, Acquire(1, 0), [Signal(1, 0, 0), WaitSleep(0)], s);
  }

  lemma RunOne(s: State, x: Step, rest: seq<Step>, s': State)
    requires Enabled(s, x) && Run(Next(s, x), rest, s')
    ensures Run(s, [x] + rest, s')
  {
    assert ([x] + rest)[1..] == rest;
  }
}
