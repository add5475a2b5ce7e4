/** Model of kern/asst1/catmouse.c under OPT_A1 and of the checks in kern/asst1/bowls.c, on top of the lock and
    condition variable model. Code between taking the mutex and giving it up is one step, taken only by a thread
    that the lock model shows inside; so is each section of bowls.c between P and V. */
module CatMouse {
  import S = Synch

  type Tid = S.Tid

  datatype Species = Cat | Mouse
  function Other(x: Species): Species { if x.Cat? then Mouse else Cat }

  /** A pair of variables, one for cats and one for mice. */
  datatype Two<T> = Two(cat: T, mouse: T) {
    function Get(x: Species): T { if x.Cat? then cat else mouse }
    function Set(x: Species, v: T): Two<T> { if x.Cat? then Two(v, mouse) else Two(cat, v) }
  }

  /** Where a simulation thread is; n counts its completed loops. */
  datatype Pc =
    | Idle(n: nat)                // in cat_sleep, or about to call lock_acquire
    | WantIn(n: nat)              // in the first lock_acquire, or past it and before the test
    | Waiting(n: nat)             // in cv_wait, or past it and before the test
    | ToEat(n: nat, bowl: int)    // has a bowl; before the first section of cat_eat
    | Eating(n: nat, bowl: int)   // between the two sections of cat_eat
    | Ate(n: nat, bowl: int)      // before the second lock_acquire
    | WantOut(n: nat, bowl: int)  // in the second lock_acquire, or past it

  const MUTEX: S.Lid := 0
  function TurnCv(x: Species): S.Cid { if x.Cat? then 0 else 1 }

  /** NumBowls, NumLoops and which thread is what */
  datatype Config = Config(numBowls: int, numLoops: int, kind: map<Tid, Species>)

  datatype State = State(k: S.State, pc: map<Tid, Pc>, turn: Two<bool>, waiting: Two<bool>,
                         numEating: int, counter: int, bowls: seq<char>, eating: Two<int>)

  function Mark(x: Species): char { if x.Cat? then 'c' else 'm' }

  function Init(g: Config): State
    requires g.numBowls > 0
  {
    State(S.Init(g.kind.Keys, {MUTEX}, {TurnCv(Cat), TurnCv(Mouse)}), map t | t in g.kind :: Idle(0),
          Two(false, false), Two(false, false), 0, 0, seq(g.numBowls, _ => '-'), Two(0, 0))
  }

  datatype Step =
    | Arrive(t: Tid)       // lock_acquire before eating
    | TestIn(t: Tid)       // the while test; cv_wait, or take a bowl and release
    | EatStart(t: Tid)
    | EatFinish(t: Tid)
    | Depart(t: Tid)       // lock_acquire after eating
    | Leave(t: Tid)        // give the bowl back, broadcast if last, release
    | Inner(x: S.Step)     // a thread goes on inside lock_acquire or cv_wait

  predicate HoldsMutex(s: State, t: Tid) {
    t in s.k.pc && s.k.pc[t] == S.Outside && MUTEX in s.k.locks && t in s.k.locks[MUTEX].inside
  }

  predicate Enabled(g: Config, s: State, x: Step) {
    match x
    case Inner(y) => (y.AcquireResume? || y.WaitSleep? || y.WaitResume?) && S.Enabled(s.k, y)
    case Arrive(t) =>
      t in s.pc && t in g.kind && s.pc[t].Idle? && s.pc[t].n < g.numLoops && S.Enabled(s.k, S.Acquire(t, MUTEX))
    case TestIn(t) => t in s.pc && t in g.kind && (s.pc[t].WantIn? || s.pc[t].Waiting?) && HoldsMutex(s, t)
    case EatStart(t) => t in s.pc && t in g.kind && s.pc[t].ToEat?
    case EatFinish(t) => t in s.pc && t in g.kind && s.pc[t].Eating?
    case Depart(t) => t in s.pc && t in g.kind && s.pc[t].Ate? && S.Enabled(s.k, S.Acquire(t, MUTEX))
    case Leave(t) => t in s.pc && t in g.kind && s.pc[t].WantOut? && HoldsMutex(s, t)
  }

  predicate Blocked(g: Config, s: State, x: Species) {
    s.numEating == g.numBowls || s.turn.Get(Other(x))
  }

  /** Every assert and panic the step executes, except that lock_release and cv_wait demand the lock. */
  predicate ChecksPass(g: Config, s: State, x: Step) {
    match x
    case TestIn(t) =>
      t in g.kind && (!Blocked(g, s, g.kind[t]) ==> s.numEating + 1 <= g.numBowls && s.counter + 1 <= g.numBowls)
    case EatStart(t) =>
      && t in s.pc && s.pc[t].ToEat? && t in g.kind
      && 1 <= s.pc[t].bowl <= |s.bowls| == g.numBowls
      && s.bowls[s.pc[t].bowl - 1] == '-' && s.eating.Get(Other(g.kind[t])) == 0
    case EatFinish(t) =>
      && t in s.pc && s.pc[t].Eating? && t in g.kind
      && 1 <= s.pc[t].bowl <= |s.bowls| && s.bowls[s.pc[t].bowl - 1] == Mark(g.kind[t]) && s.eating.Get(g.kind[t]) > 0
    case Leave(t) => s.counter - 1 >= 0
    case _ => true
  }

  function Next(g: Config, s: State, x: Step): State
    requires Enabled(g, s, x) && ChecksPass(g, s, x) && {TurnCv(Cat), TurnCv(Mouse)} <= s.k.cvs.Keys
  {
    match x
    case Inner(y) => s.(k := S.Next(s.k, y))
    case Arrive(t) => s.(k := S.DoAcquire(s.k, t, MUTEX), pc := s.pc[t := WantIn(s.pc[t].n)])
    case TestIn(t) =>
      var me := g.kind[t];
      if Blocked(g, s, me) then
        s.(waiting := s.waiting.Set(me, true), k := S.Next(s.k, S.WaitStart(t, TurnCv(me), MUTEX)),
           pc := s.pc[t := Waiting(s.pc[t].n)])
      else
        s.(turn := s.turn.Set(me, true), numEating := s.numEating + 1, counter := s.counter + 1,
           k := S.DoRelease(s.k, t, MUTEX), pc := s.pc[t := ToEat(s.pc[t].n, s.numEating + 1)])
    case EatStart(t) =>
      var me, b := g.kind[t], s.pc[t].bowl;
      s.(eating := s.eating.Set(me, s.eating.Get(me) + 1), bowls := s.bowls[b - 1 := Mark(me)],
         pc := s.pc[t := Eating(s.pc[t].n, b)])
    case EatFinish(t) =>
      var me, b := g.kind[t], s.pc[t].bowl;
      s.(eating := s.eating.Set(me, s.eating.Get(me) - 1), bowls := s.bowls[b - 1 := '-'],
         pc := s.pc[t := Ate(s.pc[t].n, b)])
    case Depart(t) => s.(k := S.DoAcquire(s.k, t, MUTEX), pc := s.pc[t := WantOut(s.pc[t].n, s.pc[t].bowl)])
    case Leave(t) =>
      var s' := Left(s, g.kind[t], t);
      s'.(k := S.DoRelease(s'.k, t, MUTEX))
  }

  /** The leaving animal's work inside the mutex. */
  function Left(s: State, me: Species, t: Tid): State
    requires t in s.pc && s.pc[t].WantOut? && {TurnCv(Cat), TurnCv(Mouse)} <= s.k.cvs.Keys
  {
    var s1 := s.(counter := s.counter - 1, pc := s.pc[t := Idle(s.pc[t].n + 1)]);
    if s1.counter == 0 then LastOut(s1, me) else s1
  }

  /** The last animal out resets the round and wakes the other species if it waits, else its own. */
  function LastOut(s: State, me: Species): State
    requires {TurnCv(Cat), TurnCv(Mouse)} <= s.k.cvs.Keys
    ensures LastOut(s, me).k.locks == s.k.locks && LastOut(s, me).k.pc == s.k.pc
  {
    var them := Other(me);
    if s.waiting.Get(them) then
      s.(numEating := 0, turn := s.turn.Set(me, false), waiting := s.waiting.Set(them, false),
         k := S.WakeAll(s.k, TurnCv(them)))
    else
      s.(numEating := 0, turn := s.turn.Set(me, false), k := S.WakeAll(s.k, TurnCv(me)))
  }

  // ---- the invariant

  predicate InRound(p: Pc) { p.ToEat? || p.Eating? || p.Ate? || p.WantOut? }

  function Members(pc: map<Tid, Pc>): set<Tid> {
    set t | t in pc && InRound(pc[t])
  }

  function Eaters(g: Config, pc: map<Tid, Pc>, x: Species): set<Tid> {
    set t | t in pc && t in g.kind && pc[t].Eating? && g.kind[t] == x
  }

  /** Animals in the round are of a species whose turn it is and have distinct bowls below numEating. */
  ghost predicate SeatsOk(kind: map<Tid, Species>, pc: map<Tid, Pc>, turn: Two<bool>, numEating: int) {
    && pc.Keys == kind.Keys
    && (forall t :: t in pc && InRound(pc[t]) ==> 1 <= pc[t].bowl <= numEating && turn.Get(kind[t]))
    && (forall t, u :: t in pc && u in pc && InRound(pc[t]) && InRound(pc[u]) && pc[t].bowl == pc[u].bowl ==> t == u)
  }

  /** The round: distinct bowls, one species, and counters that count. */
  ghost predicate RoundOk(g: Config, s: State) {
    && SeatsOk(g.kind, s.pc, s.turn, s.numEating)
    && s.counter == |Members(s.pc)| && 0 <= s.counter <= s.numEating <= g.numBowls
    && !(s.turn.cat && s.turn.mouse)
    && (s.counter == 0 ==> s.numEating == 0 && !s.turn.cat && !s.turn.mouse)
  }

  /** The thread eats at bowls[i]; bowls are numbered from 1. */
  predicate EatsAt(pc: map<Tid, Pc>, t: Tid, i: int) { t in pc && pc[t].Eating? && pc[t].bowl == i + 1 }

  /** bowls.c marks exactly the bowls in use, each with the species that eats there. */
  ghost predicate MarksOk(kind: map<Tid, Species>, pc: map<Tid, Pc>, bowls: seq<char>) {
    && pc.Keys == kind.Keys
    && (forall i, t :: 0 <= i < |bowls| && EatsAt(pc, t, i) ==> bowls[i] == Mark(kind[t]))
    && (forall i :: 0 <= i < |bowls| && bowls[i] != '-' ==> exists t :: EatsAt(pc, t, i))
  }

  /** bowls.c counts the cats and the mice that eat. */
  ghost predicate CountsOk(g: Config, pc: map<Tid, Pc>, eating: Two<int>) {
    eating.cat == |Eaters(g, pc, Cat)| && eating.mouse == |Eaters(g, pc, Mouse)|
  }

  ghost predicate BowlsOk(g: Config, s: State) {
    |s.bowls| == g.numBowls && MarksOk(g.kind, s.pc, s.bowls) && CountsOk(g, s.pc, s.eating)
  }

  /** What a thread's place in the simulation says about its place in the lock model. */
  predicate PlaceOk(k: S.State, t: Tid, p: Pc)
    requires t in k.pc && MUTEX in k.locks
  {
    var q, in' := k.pc[t], t in k.locks[MUTEX].inside;
    if p.WantIn? || p.WantOut? then q == S.InAcquire(MUTEX) || (q == S.Outside && in')
    else if p.Waiting? then
      (if q == S.Outside then in' else q == S.InAcquire(MUTEX) || ((q.CvGap? || q.InWait?) && q.l == MUTEX))
    else q == S.Outside && !in'
  }

  ghost predicate LocksOk(g: Config, s: State) {
    && S.Inv(s.k) && MUTEX in s.k.locks && {TurnCv(Cat), TurnCv(Mouse)} <= s.k.cvs.Keys
    && s.k.pc.Keys == s.pc.Keys
    && forall t :: t in s.pc ==> PlaceOk(s.k, t, s.pc[t])
  }

  ghost predicate Inv(g: Config, s: State) {
    g.numBowls > 0 && RoundOk(g, s) && BowlsOk(g, s) && LocksOk(g, s)
  }

  lemma NoneEating(g: Config, s: State, t: Tid)
    requires RoundOk(g, s) && t in s.pc && InRound(s.pc[t])
    ensures Eaters(g, s.pc, Other(g.kind[t])) == {}
  {
    if u :| u in Eaters(g, s.pc, Other(g.kind[t])) {
      assert InRound(s.pc[u]);
      assert false;
    }
  }

  /** No assert or panic of the simulation can fire. */
  lemma NoPanic(g: Config, s: State, x: Step)
    requires Inv(g, s) && Enabled(g, s, x)
    ensures ChecksPass(g, s, x)
  {
    hide LocksOk, S.Enabled;
    match x
    case EatStart(t) => NoneEating(g, s, t); OneBowlEach(g, s, t, s.pc[t].bowl - 1);
    case EatFinish(t) =>
      assert InRound(s.pc[t]) && t in Eaters(g, s.pc, g.kind[t]);
      assert EatsAt(s.pc, t, s.pc[t].bowl - 1);
    case Leave(t) => assert t in Members(s.pc);
    case _ =>
  }

  // ---- the round

  lemma Apart(m: set<Tid>, t: Tid)
    ensures |m| == |m - {t}| + if t in m then 1 else 0
  {
    if t in m { assert m == (m - {t}) + {t}; } else { assert m == m - {t}; }
  }

  lemma MembersMove(pc: map<Tid, Pc>, t: Tid, p: Pc)
    requires t in pc
    ensures |Members(pc[t := p])| == |Members(pc)| + (if InRound(p) then 1 else 0) - (if InRound(pc[t]) then 1 else 0)
  {
    var m, m' := Members(pc), Members(pc[t := p]);
    assert m' - {t} == m - {t};
    Apart(m, t);
    Apart(m', t);
    assert t in m <==> InRound(pc[t]);
    assert t in m' <==> InRound(p);
  }

  /** A thread moves on, keeping its bowl if it has one. */
  lemma RoundMove(g: Config, s: State, s': State, t: Tid, p: Pc)
    requires RoundOk(g, s) && t in s.pc
    requires InRound(p) == InRound(s.pc[t]) && (InRound(p) ==> p.bowl == s.pc[t].bowl)
    requires s'.pc == s.pc[t := p] && s'.turn == s.turn && s'.numEating == s.numEating && s'.counter == s.counter
    ensures RoundOk(g, s')
  {
    hide Members;
    MembersMove(s.pc, t, p);
  }

  lemma RoundEnter(g: Config, s: State, s': State, t: Tid, n: nat)
    requires RoundOk(g, s) && t in s.pc && !InRound(s.pc[t]) && !Blocked(g, s, g.kind[t])
    requires s'.pc == s.pc[t := ToEat(n, s.numEating + 1)] && s'.turn == s.turn.Set(g.kind[t], true)
    requires s'.numEating == s.numEating + 1 && s'.counter == s.counter + 1
    ensures RoundOk(g, s')
  {
    SeatsEnter(g.kind, s.pc, s.turn, s.numEating, t, n);
    hide SeatsOk, Members;
    MembersMove(s.pc, t, s'.pc[t]);
  }

  lemma SeatsEnter(kind: map<Tid, Species>, pc: map<Tid, Pc>, turn: Two<bool>, m: int, t: Tid, n: nat)
    requires SeatsOk(kind, pc, turn, m) && t in pc && m >= 0
    ensures SeatsOk(kind, pc[t := ToEat(n, m + 1)], turn.Set(kind[t], true), m + 1)
  {
  }

  lemma RoundLeave(g: Config, s: State, s': State, t: Tid, n: nat)
    requires RoundOk(g, s) && t in s.pc && InRound(s.pc[t]) && s'.pc == s.pc[t := Idle(n)] &&
             s'.counter == s.counter - 1
    requires s'.counter == 0 ==> s'.numEating == 0 && s'.turn == s.turn.Set(g.kind[t], false)
    requires s'.counter != 0 ==> s'.numEating == s.numEating && s'.turn == s.turn
    ensures RoundOk(g, s')
  {
    MembersMove(s.pc, t, s'.pc[t]);
    assert s.turn.Get(g.kind[t]);
    if s'.counter == 0 {
      forall u | u in s'.pc ensures !InRound(s'.pc[u]) { assert u !in Members(s'.pc); }
    }
  }

  lemma RoundKeeps(g: Config, s: State, x: Step)
    requires RoundOk(g, s) && Enabled(g, s, x) && ChecksPass(g, s, x) && {TurnCv(Cat), TurnCv(Mouse)} <= s.k.cvs.Keys
    ensures RoundOk(g, Next(g, s, x))
  {
    hide S.Enabled, S.Next, S.DoAcquire, S.DoRelease, S.WakeAll;
    var s' := Next(g, s, x);
    match x
    case Inner(y) =>
    case TestIn(t) =>
      if Blocked(g, s, g.kind[t]) { RoundMove(g, s, s', t, s'.pc[t]); } else { RoundEnter(g, s, s', t, s.pc[t].n); }
    case Leave(t) => RoundLeave(g, s, s', t, s.pc[t].n + 1);
    case _ => hide RoundOk; RoundMove(g, s, s', x.t, s'.pc[x.t]);
  }

  // ---- the bowls

  lemma MarksMove(kind: map<Tid, Species>, pc: map<Tid, Pc>, bowls: seq<char>, t: Tid, p: Pc)
    requires MarksOk(kind, pc, bowls) && t in pc && !p.Eating? && !pc[t].Eating?
    ensures MarksOk(kind, pc[t := p], bowls)
  {
    assert forall b, u :: EatsAt(pc[t := p], u, b) <==> EatsAt(pc, u, b);
  }

  lemma MarksStart(kind: map<Tid, Species>, pc: map<Tid, Pc>, bowls: seq<char>, t: Tid, n: nat, i: nat)
    requires MarksOk(kind, pc, bowls) && t in pc && !pc[t].Eating? && i < |bowls| && bowls[i] == '-'
    requires forall u :: EatsAt(pc, u, i) ==> u == t
    ensures MarksOk(kind, pc[t := Eating(n, i + 1)], bowls[i := Mark(kind[t])])
  {
    var pc' := pc[t := Eating(n, i + 1)];
    assert forall c, u :: EatsAt(pc', u, c) <==> EatsAt(pc, u, c) || (u == t && c == i);
    assert EatsAt(pc', t, i);
  }

  lemma MarksFinish(kind: map<Tid, Species>, pc: map<Tid, Pc>, bowls: seq<char>, t: Tid, n: nat, i: nat)
    requires MarksOk(kind, pc, bowls) && EatsAt(pc, t, i) && i < |bowls|
    requires forall u :: EatsAt(pc, u, i) ==> u == t
    ensures MarksOk(kind, pc[t := Ate(n, i + 1)], bowls[i := '-'])
  {
    var pc' := pc[t := Ate(n, i + 1)];
    assert forall c, u :: EatsAt(pc', u, c) <==> EatsAt(pc, u, c) && u != t;
  }

  lemma CountsKeep(g: Config, pc: map<Tid, Pc>, eating: Two<int>, t: Tid, p: Pc, d: int)
    requires CountsOk(g, pc, eating) && t in pc && t in g.kind
    requires d == (if p.Eating? then 1 else 0) - (if pc[t].Eating? then 1 else 0)
    ensures CountsOk(g, pc[t := p], eating.Set(g.kind[t], eating.Get(g.kind[t]) + d))
  {
    hide Eaters;
    EatersMove(g, pc, Cat, t, p);
    EatersMove(g, pc, Mouse, t, p);
  }

  lemma EatersMove(g: Config, pc: map<Tid, Pc>, x: Species, t: Tid, p: Pc)
    requires t in pc && t in g.kind
    ensures |Eaters(g, pc[t := p], x)| == |Eaters(g, pc, x)|
              + (if p.Eating? && g.kind[t] == x then 1 else 0) - (if pc[t].Eating? && g.kind[t] == x then 1 else 0)
  {
    var m, m' := Eaters(g, pc, x), Eaters(g, pc[t := p], x);
    assert m' - {t} == m - {t};
    Apart(m, t);
    Apart(m', t);
    assert t in m <==> pc[t].Eating? && g.kind[t] == x;
    assert t in m' <==> p.Eating? && g.kind[t] == x;
  }

  lemma OneBowlEach(g: Config, s: State, t: Tid, i: int)
    requires RoundOk(g, s) && t in s.pc && InRound(s.pc[t]) && s.pc[t].bowl == i + 1
    ensures forall u :: EatsAt(s.pc, u, i) ==> u == t
  {
    forall u | EatsAt(s.pc, u, i) ensures u == t { assert InRound(s.pc[u]); }
  }

  lemma BowlsKeep(g: Config, s: State, x: Step)
    requires RoundOk(g, s) && BowlsOk(g, s) && Enabled(g, s, x) && ChecksPass(g, s, x) &&
             {TurnCv(Cat), TurnCv(Mouse)} <= s.k.cvs.Keys
    ensures BowlsOk(g, Next(g, s, x))
  {
    hide S.Enabled, S.Next, S.DoAcquire, S.DoRelease, S.WakeAll, RoundOk, CountsOk;
    var s' := Next(g, s, x);
    match x
    case Inner(y) =>
    case EatStart(t) =>
      OneBowlEach(g, s, t, s.pc[t].bowl - 1);
      MarksStart(g.kind, s.pc, s.bowls, t, s.pc[t].n, s.pc[t].bowl - 1);
      CountsKeep(g, s.pc, s.eating, t, s'.pc[t], 1);
    case EatFinish(t) =>
      OneBowlEach(g, s, t, s.pc[t].bowl - 1);
      MarksFinish(g.kind, s.pc, s.bowls, t, s.pc[t].n, s.pc[t].bowl - 1);
      CountsKeep(g, s.pc, s.eating, t, s'.pc[t], -1);
    case _ =>
      hide MarksOk;
      MarksMove(g.kind, s.pc, s.bowls, x.t, s'.pc[x.t]);
      CountsKeep(g, s.pc, s.eating, x.t, s'.pc[x.t], 0);
      assert s'.pc == s.pc[x.t := s'.pc[x.t]];
  }

  // ---- the locks

  /** Only thread t's place in the lock model may differ. */
  ghost predicate OnlyMoves(k: S.State, k': S.State, t: Tid) {
    && MUTEX in k.locks && MUTEX in k'.locks && k'.pc.Keys == k.pc.Keys && k'.cvs.Keys == k.cvs.Keys
    && forall u :: u in k.pc && u != t ==>
         k'.pc[u] == k.pc[u] && (u in k'.locks[MUTEX].inside <==> u in k.locks[MUTEX].inside)
  }

  lemma LocksMove(g: Config, s: State, s': State, t: Tid)
    requires LocksOk(g, s) && S.Inv(s'.k) && OnlyMoves(s.k, s'.k, t) && t in s.pc && t in s'.pc &&
             s'.pc == s.pc[t := s'.pc[t]]
    requires PlaceOk(s'.k, t, s'.pc[t])
    ensures LocksOk(g, s')
  {
    hide S.Inv;
    forall u | u in s'.pc ensures PlaceOk(s'.k, u, s'.pc[u]) { if u != t { assert PlaceOk(s.k, u, s.pc[u]); } }
  }

  /** What the primitives do to a thread's place. */
  lemma AcquireMoves(k: S.State, t: Tid)
    requires MUTEX in k.locks && t in k.pc
    ensures var k' := S.DoAcquire(k, t, MUTEX);
            && OnlyMoves(k, k', t) && t in k'.pc
            && (k'.pc[t] == S.InAcquire(MUTEX) || (k'.pc[t] == S.Outside && t in k'.locks[MUTEX].inside))
  {
  }

  lemma ReleaseMoves(k: S.State, t: Tid)
    requires MUTEX in k.locks && t in k.pc
    ensures var k' := S.DoRelease(k, t, MUTEX);
            OnlyMoves(k, k', t) && k'.pc == k.pc && t !in k'.locks[MUTEX].inside
  {
  }

  lemma InnerKeeps(g: Config, s: State, y: S.Step)
    requires S.Enabled(s.k, y) && (y.AcquireResume? || y.WaitSleep? || y.WaitResume?) && LocksOk(g, s)
    ensures LocksOk(g, s.(k := S.Next(s.k, y)))
  {
    hide S.Inv, S.DoAcquire, S.LockOk, S.CvOk;
    var t, k' := y.t, S.Next(s.k, y);
    S.StepKeeps(s.k, y);
    assert PlaceOk(s.k, t, s.pc[t]);
    if y.WaitResume? { AcquireMoves(s.k, t); }
    LocksMove(g, s, s.(k := k'), t);
  }

  lemma TestKeeps(g: Config, s: State, t: Tid)
    requires LocksOk(g, s) && Enabled(g, s, TestIn(t)) && ChecksPass(g, s, TestIn(t))
    ensures LocksOk(g, Next(g, s, TestIn(t)))
  {
    hide S.Inv, S.DoRelease;
    var s' := Next(g, s, TestIn(t));
    S.StepKeeps(s.k, S.WaitStart(t, TurnCv(g.kind[t]), MUTEX));
    S.StepKeeps(s.k, S.Release(t, MUTEX));
    ReleaseMoves(s.k, t);
    LocksMove(g, s, s', t);
  }

  lemma LeaveKeeps(g: Config, s: State, t: Tid)
    requires LocksOk(g, s) && Enabled(g, s, Leave(t)) && ChecksPass(g, s, Leave(t))
    ensures LocksOk(g, Next(g, s, Leave(t)))
  {
    hide S.Inv, S.DoRelease, Left;
    var s1 := Left(s, g.kind[t], t);
    LeftKeeps(s, g.kind[t], t);
    assert PlaceOk(s.k, t, s.pc[t]);
    S.ReleaseKeeps(s1.k, t, MUTEX);
    ReleaseMoves(s1.k, t);
    LocksMove(g, s, Next(g, s, Leave(t)), t);
  }

  lemma LeftKeeps(s: State, me: Species, t: Tid)
    requires S.Inv(s.k) && t in s.pc && s.pc[t].WantOut? && {TurnCv(Cat), TurnCv(Mouse)} <= s.k.cvs.Keys
    ensures var s' := Left(s, me, t);
            S.Inv(s'.k) && s'.k.locks == s.k.locks && s'.k.pc == s.k.pc && s'.k.cvs.Keys == s.k.cvs.Keys &&
            s'.pc == s.pc[t := Idle(s.pc[t].n + 1)]
  {
    hide S.Inv, S.WakeAll;
    S.WakeAllKeeps(s.k, TurnCv(me));
    S.WakeAllKeeps(s.k, TurnCv(Other(me)));
  }

  lemma ComeKeeps(g: Config, s: State, s': State, t: Tid)
    requires LocksOk(g, s) && t in s.pc && S.Enabled(s.k, S.Acquire(t, MUTEX)) && s'.k == S.DoAcquire(s.k, t, MUTEX)
    requires t in s'.pc && s'.pc == s.pc[t := s'.pc[t]] && (s'.pc[t].WantIn? || s'.pc[t].WantOut?)
    ensures LocksOk(g, s')
  {
    hide S.Inv, S.DoAcquire;
    S.StepKeeps(s.k, S.Acquire(t, MUTEX));
    AcquireMoves(s.k, t);
    LocksMove(g, s, s', t);
  }

  lemma LocksKeep(g: Config, s: State, x: Step)
    requires LocksOk(g, s) && Enabled(g, s, x) && ChecksPass(g, s, x)
    ensures LocksOk(g, Next(g, s, x))
  {
    hide S.Inv, S.DoAcquire, S.DoRelease, S.WakeAll;
    match x
    case Inner(y) => InnerKeeps(g, s, y);
    case TestIn(t) => TestKeeps(g, s, t);
    case Leave(t) => LeaveKeeps(g, s, t);
    case Arrive(t) => ComeKeeps(g, s, Next(g, s, x), t);
    case Depart(t) => ComeKeeps(g, s, Next(g, s, x), t);
    case EatStart(t) => assert PlaceOk(s.k, t, s.pc[t]); LocksMove(g, s, Next(g, s, x), t);
    case EatFinish(t) => assert PlaceOk(s.k, t, s.pc[t]); LocksMove(g, s, Next(g, s, x), t);
  }

  // ---- runs

  lemma InitHolds(g: Config)
    requires g.numBowls > 0
    ensures Inv(g, Init(g))
  {
    hide S.Inv;
    S.InitInv(g.kind.Keys, {MUTEX}, {TurnCv(Cat), TurnCv(Mouse)});
    assert Members(Init(g).pc) == {};
    assert forall x :: Eaters(g, Init(g).pc, x) == {};
  }

  lemma StepKeeps(g: Config, s: State, x: Step)
    requires Inv(g, s) && Enabled(g, s, x)
    ensures ChecksPass(g, s, x) && {TurnCv(Cat), TurnCv(Mouse)} <= s.k.cvs.Keys && Inv(g, Next(g, s, x))
  {
    NoPanic(g, s, x);
    hide ChecksPass, Enabled, RoundOk, BowlsOk, Next;
    RoundKeeps(g, s, x);
    BowlsKeep(g, s, x);
    LocksKeep(g, s, x);
  }

  /** steps leads from s to s', every step one that some thread could take and whose checks passed. */
  ghost predicate Run(g: Config, s: State, steps: seq<Step>, s': State)
    decreases |steps|
  {
    if steps == [] then s' == s
    else
      && Enabled(g, s, steps[0]) && ChecksPass(g, s, steps[0]) && {TurnCv(Cat), TurnCv(Mouse)} <= s.k.cvs.Keys
      && Run(g, Next(g, s, steps[0]), steps[1..], s')
  }

  lemma {:induction false} RunKeeps(g: Config, s: State, steps: seq<Step>, s': State)
    requires Inv(g, s) && Run(g, s, steps, s')
    ensures Inv(g, s')
    decreases |steps|
  {
    hide Inv, Next, Enabled, ChecksPass;
    if steps != [] {
      StepKeeps(g, s, steps[0]);
      RunKeeps(g, Next(g, s, steps[0]), steps[1..], s');
    }
  }

  /** In every reachable state no check can fail at the next step, whatever it is; cats and mice are never at the
      bowls together; animals at the bowls have different bowls, numbered from 1; and the counter counts them. */
  lemma Safety(g: Config, steps: seq<Step>, s: State)
    requires g.numBowls > 0 && Run(g, Init(g), steps, s)
    ensures forall x :: Enabled(g, s, x) ==> ChecksPass(g, s, x)
    ensures s.pc.Keys == g.kind.Keys && s.counter == |Members(s.pc)|
    ensures forall t, u :: t in Members(s.pc) && u in Members(s.pc) ==> g.kind[t] == g.kind[u]
    ensures forall t, u :: t in Members(s.pc) && u in Members(s.pc) && t != u ==> s.pc[t].bowl != s.pc[u].bowl
    ensures forall t :: t in Members(s.pc) ==> 1 <= s.pc[t].bowl <= g.numBowls
  {
    hide LocksOk, BowlsOk, Run, Enabled, ChecksPass, RoundOk, Init;
    InitHolds(g);
    RunKeeps(g, Init(g), steps, s);
    RoundMeans(g, s);
    forall x | Enabled(g, s, x) ensures ChecksPass(g, s, x) { NoPanic(g, s, x); }
  }

  lemma RoundMeans(g: Config, s: State)
    requires RoundOk(g, s)
    ensures s.pc.Keys == g.kind.Keys && s.counter == |Members(s.pc)|
    ensures forall t, u :: t in Members(s.pc) && u in Members(s.pc) ==> g.kind[t] == g.kind[u]
    ensures forall t, u :: t in Members(s.pc) && u in Members(s.pc) && t != u ==> s.pc[t].bowl != s.pc[u].bowl
    ensures forall t :: t in Members(s.pc) ==> 1 <= s.pc[t].bowl <= g.numBowls
  {
  }
}
