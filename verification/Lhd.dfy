/** Model of the disk driver's handshake (kern/dev/lamebus/lhd.c): any number of threads in lhd_io, the device, and
    the interrupt handler take turns in any order. The device finishes a request with whatever outcome its contents
    allow and keeps its buffer and registers otherwise. */
module Lhd {
  import S = Semaphore
  import opened Words

  type Tid = S.Tid
  type Sector = seq<byte>

  const SECTSIZE := 512
  datatype Errno = Ok | EINVAL | EIO | EFAULT

  /** The status register without LHD_ISWRITE on completion, which LHD_STATEMASK takes away. */
  datatype Stat = Idle | Working(write: bool) | StatOk | InvSect | Media

  function CodeToErrno(v: Stat): Errno
    requires v.StatOk? || v.InvSect? || v.Media?
  {
    if v.StatOk? then Ok else if v.InvSect? then EINVAL else EIO
  }

  datatype Device = Device(stat: Stat, sect: nat, buf: Sector, disk: seq<Sector>)

  /** Where a thread is in lhd_io, named after what it does next. */
  datatype Pc =
    | Returned(r: Errno)
    | Claim            // in P(lh_clear)
    | Load             // copy the sector to the buffer, if writing
    | Select           // write the sector register
    | Start            // write the status register
    | Await            // in P(lh_done)
    | Check            // read lh_result; copy the sector from the buffer, if reading
    | Clear(r: Errno)  // V(lh_clear), then fail or go round

  /** lhd_io's variables: data is the caller's memory, one element per sector; since is how long the record of
      requests was when the call began. */
  datatype Thread = Thread(pc: Pc, write: bool, sector: nat, i: nat, data: seq<Sector>, since: nat)

  /** The record of requests as the device sees them; Began carries the caller and the data it means to write. */
  datatype Event =
    | Began(t: Tid, sect: nat, write: bool, data: Sector)
    | Ended(sect: nat, write: bool, err: Errno, data: Sector)

  datatype State =
    State(clear: S.Sem, done: S.Sem, result: Errno, dev: Device, threads: map<Tid, Thread>, log: seq<Event>)

  datatype Step =
    | Call(t: Tid, write: bool, offset: int, resid: nat, data: seq<Sector>)
    | DoClaim(t: Tid)
    | DoLoad(t: Tid, fault: bool)
    | DoSelect(t: Tid)
    | DoStart(t: Tid)
    | DoAwait(t: Tid)
    | DoCheck(t: Tid, fault: bool)
    | DoClear(t: Tid)
    | Finish(media: bool)
    | Irq

  // ---- lhd_io's arithmetic, in 32 bits

  predicate Aligned(offset: int, resid: nat) { offset % SECTSIZE == 0 && resid % SECTSIZE == 0 }

  /** The two tests at the head of lhd_io; the sum wraps. */
  predicate Accepted(offset: int, resid: nat, blocks: nat) {
    Aligned(offset, resid) && ToU32(ToU32(CDiv(offset, SECTSIZE)) + resid / SECTSIZE) <= blocks
  }

  // ---- steps

  predicate At(s: State, t: Tid, p: Pc) { t in s.threads && s.threads[t].pc == p }

  predicate Enabled(s: State, x: Step) {
    match x
    case Call(t, write, offset, resid, data) =>
      && t in s.threads && s.threads[t].pc.Returned? && -0x8000_0000 <= offset < 0x8000_0000 && resid < U32
      && |data| == resid / SECTSIZE
    case DoClaim(t) => At(s, t, Claim) && t !in s.clear.sleepers
    case DoLoad(t, _) => At(s, t, Load)
    case DoSelect(t) => At(s, t, Select)
    case DoStart(t) => At(s, t, Start)
    case DoAwait(t) => At(s, t, Await) && t !in s.done.sleepers
    case DoCheck(t, _) => At(s, t, Check)
    case DoClear(t) => t in s.threads && s.threads[t].pc.Clear?
    case Finish(_) => s.dev.stat.Working?
    case Irq => true
  }

  function Goto(s: State, t: Tid, p: Pc): State
    requires t in s.threads
  {
    s.(threads := s.threads[t := s.threads[t].(pc := p)])
  }

  /** The head of the loop: the next sector, or done. */
  function Round(th: Thread, i: nat): Thread {
    th.(i := i, pc := if i < |th.data| then Claim else Returned(Ok))
  }

  function Request(th: Thread): nat { ToU32(th.sector + th.i) }

  /** Valid for threads inside the loop body */
  function Payload(th: Thread): Sector
    requires th.i < |th.data|
  {
    th.data[th.i]
  }

  /** lhd_irq, with lhd_iodone and V */
  function Interrupt(s: State): State {
    if s.dev.stat.Idle? || s.dev.stat.Working? then s
    else s.(dev := s.dev.(stat := Idle), result := CodeToErrno(s.dev.stat), done := S.V(s.done))
  }

  /** What the device does with the request in its registers. */
  function Operate(d: Device, media: bool): Device
    requires d.stat.Working?
  {
    if d.sect >= |d.disk| then d.(stat := InvSect)
    else if media then d.(stat := Media)
    else if d.stat.write then d.(stat := StatOk, disk := d.disk[d.sect := d.buf])
    else d.(stat := StatOk, buf := d.disk[d.sect])
  }

  function Next(s: State, x: Step): State
    requires Enabled(s, x)
    requires (x.DoLoad? || x.DoStart? || x.DoCheck?) ==> s.threads[x.t].i < |s.threads[x.t].data|
  {
    match x
    case Call(t, write, offset, resid, data) =>
      var th := Thread(Returned(EINVAL), write, ToU32(CDiv(offset, SECTSIZE)), 0, data, |s.log|);
      s.(threads := s.threads[t := if Accepted(offset, resid, |s.dev.disk|) then Round(th, 0) else th])
    case DoClaim(t) =>
      var s1 := s.(clear := S.P(s.clear, t));
      if s.clear.count == 0 then s1 else Goto(s1, t, Load)
    case DoLoad(t, fault) =>
      var th := s.threads[t];
      if !th.write then Goto(s, t, Select)
      else if fault then Goto(s, t, Clear(EFAULT))
      else Goto(s.(dev := s.dev.(buf := Payload(th))), t, Select)
    case DoSelect(t) => Goto(s.(dev := s.dev.(sect := Request(s.threads[t]))), t, Start)
    case DoStart(t) =>
      var th := s.threads[t];
      Goto(s.(dev := s.dev.(stat := Working(th.write)), log := s.log + [Began(t, s.dev.sect, th.write, Payload(th))]),
           t, Await)
    case DoAwait(t) =>
      var s1 := s.(done := S.P(s.done, t));
      if s.done.count == 0 then s1 else Goto(s1, t, Check)
    case DoCheck(t, fault) =>
      var th := s.threads[t];
      if s.result != Ok || th.write then Goto(s, t, Clear(s.result))
      else if fault then Goto(s, t, Clear(EFAULT))
      else s.(threads := s.threads[t := th.(pc := Clear(Ok), data := th.data[th.i := s.dev.buf])])
    case DoClear(t) =>
      var th := s.threads[t];
      s.(clear := S.V(s.clear),
         threads := s.threads[t := if th.pc.r == Ok then Round(th, th.i + 1) else th.(pc := Returned(th.pc.r))])
    case Finish(media) =>
      var d := Operate(s.dev, media);
      s.(dev := d, log := s.log + [Ended(d.sect, s.dev.stat.write, CodeToErrno(d.stat), d.buf)])
    case Irq => Interrupt(s)
  }

  // ---- what the record of requests says

  function Last(log: seq<Event>): Event
    requires log != []
  {
    log[|log| - 1]
  }

  predicate Outstanding(log: seq<Event>) { log != [] && Last(log).Began? }

  /** The disk after the recorded requests, taken one at a time. */
  function Replay(disk: seq<Sector>, log: seq<Event>): (r: seq<Sector>)
    ensures |r| == |disk|
  {
    if log == [] then disk
    else
      var r, e := Replay(disk, log[..|log| - 1]), Last(log);
      if e.Ended? && e.write && e.err == Ok && e.sect < |disk| then r[e.sect := e.data] else r
  }

  /** Requests do not overlap; each completion is of the request before it; a write stores what its caller meant
      and a read returns what the earlier requests left there. */
  ghost predicate Linear(disk: seq<Sector>, log: seq<Event>) {
    log != [] ==> Linear(disk, log[..|log| - 1]) && Follows(disk, log[..|log| - 1], Last(log))
  }

  ghost predicate Follows(disk: seq<Sector>, log: seq<Event>, e: Event) {
    match e
    case Began(_, _, _, _) => !Outstanding(log)
    case Ended(sect, write, err, data) =>
      && Outstanding(log) && Last(log).sect == sect && Last(log).write == write
      && (err == EINVAL <==> sect >= |disk|)
      && (err == Ok ==> data == if write then Last(log).data else Replay(disk, log)[sect])
  }

  lemma Extend(disk: seq<Sector>, log: seq<Event>, e: Event)
    requires Linear(disk, log) && Follows(disk, log, e)
    ensures Linear(disk, log + [e])
    ensures Replay(disk, log + [e]) ==
              if e.Ended? && e.write && e.err == Ok && e.sect < |disk| then Replay(disk, log)[e.sect := e.data]
              else Replay(disk, log)
  {
    assert (log + [e])[..|log|] == log;
  }

  // ---- the invariant

  predicate Inside(p: Pc) { !p.Returned? && !p.Claim? }

  /** Sector j of the call was transferred by a request of this thread made since the call began. */
  ghost predicate Served(log: seq<Event>, t: Tid, th: Thread, j: nat)
    requires j < |th.data|
  {
    exists k: nat :: th.since <= k && k + 1 < |log| && ServedAt(log, t, th, j, k)
  }

  predicate ServedAt(log: seq<Event>, t: Tid, th: Thread, j: nat, k: nat)
    requires j < |th.data| && k + 1 < |log|
  {
    && log[k].Began? && log[k].t == t && log[k].sect == ToU32(th.sector + j) && log[k].write == th.write
    && log[k + 1] == Ended(ToU32(th.sector + j), th.write, Ok, th.data[j])
  }

  ghost predicate ThreadOk(log: seq<Event>, t: Tid, th: Thread) {
    && th.i <= |th.data| && th.since <= |log|
    && (th.pc == Returned(Ok) ==> th.i == |th.data|)
    && (!th.pc.Returned? ==> th.i < |th.data|)
    && (forall j: nat :: j < th.i ==> Served(log, t, th, j))
    && (th.pc == Clear(Ok) ==> Served(log, t, th, th.i))
  }

  predicate Quiet(s: State) { s.dev.stat.Idle? && s.done.count == 0 && !Outstanding(s.log) }

  predicate Loaded(s: State, th: Thread)
    requires th.i < |th.data|
  {
    th.write ==> s.dev.buf == Payload(th)
  }

  /** The last thing recorded is the completion of thread t's current request, and the buffer still shows it. */
  predicate Completed(s: State, t: Tid, th: Thread)
    requires th.i < |th.data|
  {
    && |s.log| >= 2 && s.log[|s.log| - 2] == Began(t, Request(th), th.write, Payload(th)) && th.since <= |s.log| - 2
    && Last(s.log).Ended? && Last(s.log).sect == Request(th) && Last(s.log).write == th.write
    && Last(s.log).data == s.dev.buf && Loaded(s, th)
  }

  /** The request is with the device, or done and not yet reported, or reported and not yet noticed. */
  predicate InFlight(s: State, t: Tid, th: Thread)
    requires th.i < |th.data|
  {
    match s.dev.stat
    case Working(w) =>
      && w == th.write && s.dev.sect == Request(th) && s.done.count == 0 && Loaded(s, th) && th.since < |s.log|
      && s.log != [] && Last(s.log) == Began(t, Request(th), th.write, Payload(th))
    case Idle => s.done.count == 1 && Completed(s, t, th) && s.result == Last(s.log).err
    case _ => s.done.count == 0 && Completed(s, t, th) && CodeToErrno(s.dev.stat) == Last(s.log).err
  }

  predicate PhaseOk(s: State, t: Tid, th: Thread)
    requires th.i < |th.data|
  {
    match th.pc
    case Select => Quiet(s) && Loaded(s, th)
    case Start => Quiet(s) && Loaded(s, th) && s.dev.sect == Request(th)
    case Await => InFlight(s, t, th)
    case Check => Quiet(s) && Completed(s, t, th) && s.result == Last(s.log).err
    case _ => Quiet(s)
  }

  /** lh_clear is held by exactly the threads between its P and its V, which is one thread or none. */
  ghost predicate Exclusive(s: State) {
    && s.clear.count <= 1
    && (s.clear.count == 1 <==> forall t :: t in s.threads ==> !Inside(s.threads[t].pc))
    && (forall t, u :: t in s.threads && u in s.threads && Inside(s.threads[t].pc) && Inside(s.threads[u].pc) ==>
          t == u)
  }

  ghost predicate PhasesOk(s: State) {
    && (forall t :: t in s.threads && Inside(s.threads[t].pc) ==>
          s.threads[t].i < |s.threads[t].data| && PhaseOk(s, t, s.threads[t]))
    && (s.clear.count == 1 ==> Quiet(s))
  }

  ghost predicate Inv(disk: seq<Sector>, s: State) {
    && |s.dev.disk| == |disk| && s.dev.disk == Replay(disk, s.log) && Linear(disk, s.log)
    && S.Ok(s.clear) && S.Ok(s.done)
    && (forall t :: t in s.threads ==> ThreadOk(s.log, t, s.threads[t]))
    && Exclusive(s) && PhasesOk(s)
  }

  function Init(threads: set<Tid>, disk: seq<Sector>, buf: Sector): State {
    State(S.Sem(1, {}), S.Sem(0, {}), Ok, Device(Idle, 0, buf, disk),
          map t | t in threads :: Thread(Returned(Ok), false, 0, 0, [], 0), [])
  }

  lemma InitInv(threads: set<Tid>, disk: seq<Sector>, buf: Sector)
    ensures Inv(disk, Init(threads, disk, buf))
  {
  }

  // ---- every step keeps it

  ghost predicate Grows(log: seq<Event>, log': seq<Event>) { |log| <= |log'| && log'[..|log|] == log }

  lemma ServedGrows(log: seq<Event>, log': seq<Event>, t: Tid, th: Thread, j: nat)
    requires j < |th.data| && Served(log, t, th, j) && Grows(log, log')
    ensures Served(log', t, th, j)
  {
    var k: nat :| th.since <= k && k + 1 < |log| && ServedAt(log, t, th, j, k);
    assert log'[..|log|][k] == log[k] && log'[..|log|][k + 1] == log[k + 1];
    assert ServedAt(log', t, th, j, k);
  }

  lemma ThreadGrows(log: seq<Event>, log': seq<Event>, t: Tid, th: Thread)
    requires ThreadOk(log, t, th) && Grows(log, log')
    ensures ThreadOk(log', t, th)
  {
    hide Served;
    forall j: nat | j < |th.data| && Served(log, t, th, j) ensures Served(log', t, th, j) {
      ServedGrows(log, log', t, th, j);
    }
  }

  ghost predicate Moved(s: State, s': State, t: Tid) {
    t in s.threads && t in s'.threads && s'.threads == s.threads[t := s'.threads[t]]
  }

  /** Thread t moved, or none did; the others' own facts survive. */
  lemma Threads(s: State, s': State, t: Tid)
    requires forall u :: u in s.threads ==> ThreadOk(s.log, u, s.threads[u])
    requires Grows(s.log, s'.log) && Moved(s, s', t) && ThreadOk(s'.log, t, s'.threads[t])
    ensures forall u :: u in s'.threads ==> ThreadOk(s'.log, u, s'.threads[u])
  {
    hide ThreadOk;
    forall u | u in s'.threads ensures ThreadOk(s'.log, u, s'.threads[u]) {
      if u != t { ThreadGrows(s.log, s'.log, u, s.threads[u]); }
    }
  }

  /** A thread inside moves and stays inside. */
  lemma StayInside(s: State, s': State, t: Tid)
    requires Exclusive(s) && Moved(s, s', t) && Inside(s.threads[t].pc)
    requires Inside(s'.threads[t].pc) && s'.clear.count == s.clear.count
    requires s'.threads[t].i < |s'.threads[t].data| && PhaseOk(s', t, s'.threads[t])
    ensures Exclusive(s') && PhasesOk(s')
  {
    hide PhaseOk;
    assert s.clear.count != 1;
  }

  lemma StayOutside(s: State, s': State, t: Tid)
    requires Exclusive(s) && PhasesOk(s) && Moved(s, s', t) && !Inside(s.threads[t].pc)
    requires !Inside(s'.threads[t].pc) && s'.clear.count == s.clear.count
    requires s'.dev == s.dev && s'.done.count == s.done.count && s'.log == s.log && s'.result == s.result
    ensures Exclusive(s') && PhasesOk(s')
  {
    forall u | u in s'.threads && Inside(s'.threads[u].pc)
      ensures s'.threads[u].i < |s'.threads[u].data| && PhaseOk(s', u, s'.threads[u])
    {
      assert PhaseOk(s, u, s.threads[u]);
    }
    assert s'.clear.count == 1 <==> forall u :: u in s'.threads ==> !Inside(s'.threads[u].pc) by {
      assert forall u :: u in s'.threads ==> (Inside(s'.threads[u].pc) <==> Inside(s.threads[u].pc));
    }
  }

  lemma ComeIn(s: State, s': State, t: Tid)
    requires Exclusive(s) && PhasesOk(s) && Moved(s, s', t) && s.clear.count == 1
    requires s'.threads[t].pc.Load? && s'.threads[t].i < |s'.threads[t].data| && s'.clear.count == 0
    requires s'.dev == s.dev && s'.done.count == s.done.count && s'.log == s.log
    ensures Exclusive(s') && PhasesOk(s')
  {
    assert Inside(s'.threads[t].pc);
  }

  lemma GoOut(s: State, s': State, t: Tid)
    requires Exclusive(s) && PhasesOk(s) && Moved(s, s', t) && s.threads[t].pc.Clear?
    requires !Inside(s'.threads[t].pc) && s'.clear.count == s.clear.count + 1
    requires s'.dev == s.dev && s'.done.count == s.done.count && s'.log == s.log
    ensures Exclusive(s') && PhasesOk(s')
  {
    assert Inside(s.threads[t].pc) && PhaseOk(s, t, s.threads[t]);
    assert s.clear.count == 0;
  }

  predicate Ready(s: State, x: Step) {
    (x.DoLoad? || x.DoStart? || x.DoCheck?) && x.t in s.threads ==> s.threads[x.t].i < |s.threads[x.t].data|
  }

  /** A step of thread t that neither the device nor the record sees. */
  lemma Silent(disk: seq<Sector>, s: State, s': State, t: Tid)
    requires Inv(disk, s) && Moved(s, s', t) && s'.dev.disk == s.dev.disk && s'.log == s.log && S.Ok(s'.clear) &&
             S.Ok(s'.done)
    requires ThreadOk(s'.log, t, s'.threads[t]) && Exclusive(s') && PhasesOk(s')
    ensures Inv(disk, s')
  {
    hide ThreadOk, Exclusive, PhasesOk, Linear, Replay;
    Threads(s, s', t);
  }

  lemma CallKeeps(disk: seq<Sector>, s: State, x: Step)
    requires x.Call? && Enabled(s, x) && Inv(disk, s)
    ensures Inv(disk, Next(s, x))
  {
    hide Linear, Replay, Accepted, PhasesOk, Exclusive;
    var s' := Next(s, x);
    StayOutside(s, s', x.t);
    Silent(disk, s, s', x.t);
  }

  lemma ClaimKeeps(disk: seq<Sector>, s: State, t: Tid)
    requires Enabled(s, DoClaim(t)) && Inv(disk, s)
    ensures Inv(disk, Next(s, DoClaim(t)))
  {
    hide Linear, Replay, PhasesOk, Served;
    var s' := Next(s, DoClaim(t));
    assert ThreadOk(s.log, t, s.threads[t]);
    if s.clear.count == 0 {
      StayOutside(s, s', t);
    } else {
      SameThread(s.log, t, s.threads[t], Load);
      ComeIn(s, s', t);
    }
    hide Exclusive;
    Silent(disk, s, s', t);
  }

  lemma ClearKeeps(disk: seq<Sector>, s: State, t: Tid)
    requires Enabled(s, DoClear(t)) && Inv(disk, s)
    ensures Inv(disk, Next(s, DoClear(t)))
  {
    hide Linear, Replay, PhasesOk, Exclusive;
    var s' := Next(s, DoClear(t));
    ClearThread(s.log, t, s.threads[t], s'.threads[t]);
    hide ThreadOk;
    GoOut(s, s', t);
    Silent(disk, s, s', t);
  }

  lemma ClearThread(log: seq<Event>, t: Tid, th: Thread, th': Thread)
    requires ThreadOk(log, t, th) && th.pc.Clear?
    requires th' == if th.pc.r == Ok then Round(th, th.i + 1) else th.(pc := Returned(th.pc.r))
    ensures ThreadOk(log, t, th')
  {
    hide Served;
    forall j: nat | j < th'.i ensures Served(log, t, th', j) { SameServed(log, t, th, th', j); }
  }

  lemma SameServed(log: seq<Event>, t: Tid, th: Thread, th': Thread, j: nat)
    requires j < |th.data| && j < |th'.data| && Served(log, t, th, j)
    requires th'.sector == th.sector && th'.write == th.write && th'.since == th.since && th'.data[j] == th.data[j]
    ensures Served(log, t, th', j)
  {
    var k: nat :| th.since <= k && k + 1 < |log| && ServedAt(log, t, th, j, k);
    assert ServedAt(log, t, th', j, k);
  }

  /** Only the place changes. */
  lemma SameThread(log: seq<Event>, t: Tid, th: Thread, p: Pc)
    requires ThreadOk(log, t, th) && !th.pc.Returned? && Inside(p) && p != Clear(Ok)
    ensures ThreadOk(log, t, th.(pc := p))
  {
    hide Served;
    forall j: nat | j < th.i ensures Served(log, t, th.(pc := p), j) { SameServed(log, t, th, th.(pc := p), j); }
  }

  /** A step inside that begins and ends no request. */
  lemma InsideKeeps(disk: seq<Sector>, s: State, s': State, t: Tid)
    requires Inv(disk, s) && Moved(s, s', t) && s'.dev.disk == s.dev.disk && s'.log == s.log && s'.clear == s.clear &&
             S.Ok(s'.done)
    requires Inside(s.threads[t].pc) && Inside(s'.threads[t].pc) && ThreadOk(s'.log, t, s'.threads[t])
    requires s'.threads[t].i < |s'.threads[t].data| && PhaseOk(s', t, s'.threads[t])
    ensures Inv(disk, s')
  {
    hide Linear, Replay, PhasesOk, Exclusive, ThreadOk, PhaseOk;
    StayInside(s, s', t);
    Silent(disk, s, s', t);
  }

  lemma Inner(disk: seq<Sector>, s: State, t: Tid)
    requires Inv(disk, s) && t in s.threads && Inside(s.threads[t].pc)
    ensures ThreadOk(s.log, t, s.threads[t]) && s.threads[t].i < |s.threads[t].data| && PhaseOk(s, t, s.threads[t]) &&
            S.Ok(s.done)
    ensures s.threads[t].since <= |s.log|
  {
    hide Linear, Replay, Exclusive, PhaseOk, Served;
  }

  lemma LoadKeeps(disk: seq<Sector>, s: State, t: Tid, fault: bool)
    requires Enabled(s, DoLoad(t, fault)) && Inv(disk, s)
    ensures Ready(s, DoLoad(t, fault)) && Inv(disk, Next(s, DoLoad(t, fault)))
  {
    hide Inv, ThreadOk;
    Inner(disk, s, t);
    var s' := Next(s, DoLoad(t, fault));
    SameThread(s.log, t, s.threads[t], s'.threads[t].pc);
    InsideKeeps(disk, s, s', t);
  }

  lemma SelectKeeps(disk: seq<Sector>, s: State, t: Tid)
    requires Enabled(s, DoSelect(t)) && Inv(disk, s)
    ensures Inv(disk, Next(s, DoSelect(t)))
  {
    hide Inv, ThreadOk;
    Inner(disk, s, t);
    var s' := Next(s, DoSelect(t));
    SameThread(s.log, t, s.threads[t], s'.threads[t].pc);
    InsideKeeps(disk, s, s', t);
  }

  lemma AwaitKeeps(disk: seq<Sector>, s: State, t: Tid)
    requires Enabled(s, DoAwait(t)) && Inv(disk, s)
    ensures Inv(disk, Next(s, DoAwait(t)))
  {
    hide Inv, ThreadOk;
    Inner(disk, s, t);
    var s' := Next(s, DoAwait(t));
    SameThread(s.log, t, s.threads[t], s'.threads[t].pc);
    InsideKeeps(disk, s, s', t);
  }

  lemma CheckKeeps(disk: seq<Sector>, s: State, t: Tid, fault: bool)
    requires Enabled(s, DoCheck(t, fault)) && Inv(disk, s)
    ensures Ready(s, DoCheck(t, fault)) && Inv(disk, Next(s, DoCheck(t, fault)))
  {
    hide Inv, ThreadOk;
    Inner(disk, s, t);
    var s' := Next(s, DoCheck(t, fault));
    CheckThread(s, t, s.threads[t], s'.threads[t]);
    InsideKeeps(disk, s, s', t);
  }

  /** What the thread takes away is the completion of its own sector. */
  lemma CheckThread(s: State, t: Tid, th: Thread, th': Thread)
    requires ThreadOk(s.log, t, th) && th.pc.Check? && PhaseOk(s, t, th) && th'.pc.Clear?
    requires th' == th.(pc := th'.pc,
                        data := if th'.pc.r == Ok && !th.write then th.data[th.i := s.dev.buf] else th.data)
    requires th'.pc.r == Ok ==> s.result == Ok
    ensures ThreadOk(s.log, t, th')
  {
    hide Served, ServedAt;
    forall j: nat | j < th.i ensures Served(s.log, t, th', j) { SameServed(s.log, t, th, th', j); }
    if th'.pc.r == Ok { JustServed(s, t, th, th'); }
  }

  lemma JustServed(s: State, t: Tid, th: Thread, th': Thread)
    requires th.i < |th.data| && Completed(s, t, th) && Last(s.log).err == Ok
    requires th' == th.(pc := th'.pc, data := if !th.write then th.data[th.i := s.dev.buf] else th.data)
    ensures Served(s.log, t, th', th.i)
  {
    assert ServedAt(s.log, t, th', th.i, |s.log| - 2);
  }

  /** A step of thread t that adds to the record. */
  lemma StartKeeps(disk: seq<Sector>, s: State, t: Tid)
    requires Enabled(s, DoStart(t)) && Inv(disk, s)
    ensures Ready(s, DoStart(t)) && Inv(disk, Next(s, DoStart(t)))
  {
    hide ThreadOk, PhasesOk, Exclusive, Linear, Replay;
    Inner(disk, s, t);
    var s' := Next(s, DoStart(t));
    var e := Last(s'.log);
    Extend(disk, s.log, e);
    ThreadGrows(s.log, s'.log, t, s.threads[t]);
    SameThread(s'.log, t, s.threads[t], Await);
    StayInside(s, s', t);
    Threads(s, s', t);
  }

  /** Whatever the device or the interrupt handler does, it does for the one thread that awaits it. */
  lemma Awaiter(disk: seq<Sector>, s: State) returns (t: Tid)
    requires Inv(disk, s) && !s.dev.stat.Idle?
    ensures t in s.threads && s.threads[t].pc.Await?
  {
    hide Linear, Replay, ThreadOk;
    t :| t in s.threads && Inside(s.threads[t].pc);
    assert PhaseOk(s, t, s.threads[t]);
  }

  lemma FinishKeeps(disk: seq<Sector>, s: State, media: bool)
    requires Enabled(s, Finish(media)) && Inv(disk, s)
    ensures Inv(disk, Next(s, Finish(media)))
  {
    hide ThreadOk, PhasesOk, Exclusive, Linear, Replay;
    var t := Awaiter(disk, s);
    var s' := Next(s, Finish(media));
    Inner(disk, s, t);
    Extend(disk, s.log, Last(s'.log));
    ThreadGrows(s.log, s'.log, t, s.threads[t]);
    assert s'.threads == s.threads[t := s'.threads[t]];
    StayInside(s, s', t);
    Threads(s, s', t);
  }

  lemma IrqKeeps(disk: seq<Sector>, s: State)
    requires Inv(disk, s)
    ensures Inv(disk, Interrupt(s))
  {
    if !s.dev.stat.Idle? && !s.dev.stat.Working? {
      var t := Awaiter(disk, s);
      hide Inv, ThreadOk;
      Inner(disk, s, t);
      assert Interrupt(s).threads == s.threads[t := s.threads[t]];
      InsideKeeps(disk, s, Interrupt(s), t);
    }
  }

  lemma StepKeeps(disk: seq<Sector>, s: State, x: Step)
    requires Inv(disk, s) && Enabled(s, x)
    ensures Ready(s, x) && Inv(disk, Next(s, x))
  {
    hide Inv;
    match x
    case Call(t, write, offset, resid, data) => CallKeeps(disk, s, x);
    case DoClaim(t) => ClaimKeeps(disk, s, t);
    case DoLoad(t, fault) => LoadKeeps(disk, s, t, fault);
    case DoSelect(t) => SelectKeeps(disk, s, t);
    case DoStart(t) => StartKeeps(disk, s, t);
    case DoAwait(t) => AwaitKeeps(disk, s, t);
    case DoCheck(t, fault) => CheckKeeps(disk, s, t, fault);
    case DoClear(t) => ClearKeeps(disk, s, t);
    case Finish(media) => FinishKeeps(disk, s, media);
    case Irq => IrqKeeps(disk, s);
  }

  // ---- runs

  /** steps leads from s to s'. */
  ghost predicate Run(s: State, steps: seq<Step>, s': State)
    decreases |steps|
  {
    if steps == [] then s' == s
    else Enabled(s, steps[0]) && Ready(s, steps[0]) && Run(Next(s, steps[0]), steps[1..], s')
  }

  lemma {:induction false} RunKeeps(disk: seq<Sector>, s: State, steps: seq<Step>, s': State)
    requires Inv(disk, s) && Run(s, steps, s')
    ensures Inv(disk, s')
    decreases |steps|
  {
    hide Inv, Next;
    if steps != [] {
      StepKeeps(disk, s, steps[0]);
      RunKeeps(disk, Next(s, steps[0]), steps[1..], s');
    }
  }

  lemma Reached(threads: set<Tid>, disk: seq<Sector>, buf: Sector, steps: seq<Step>, s: State)
    requires Run(Init(threads, disk, buf), steps, s)
    ensures Inv(disk, s)
  {
    hide Inv;
    InitInv(threads, disk, buf);
    RunKeeps(disk, Init(threads, disk, buf), steps, s);
  }

  /** In every reachable state at most one request is outstanding, requests ended in the order they began, and the
      disk is what the ended requests make of the first one. */
  lemma OneAtATime(threads: set<Tid>, disk: seq<Sector>, buf: Sector, steps: seq<Step>, s: State, k: nat)
    requires Run(Init(threads, disk, buf), steps, s) && k < |s.log|
    ensures s.dev.disk == Replay(disk, s.log)
    ensures Follows(disk, s.log[..k], s.log[k])
    ensures s.log[k].Began? <==> k % 2 == 0
    ensures s.dev.stat.Working? ==> Outstanding(s.log)
  {
    Reached(threads, disk, buf, steps, s);
    LinearAt(disk, s.log, k);
    if s.dev.stat.Working? {
      var t := Awaiter(disk, s);
      Inner(disk, s, t);
    }
  }

  lemma {:induction false} LinearAt(disk: seq<Sector>, log: seq<Event>, k: nat)
    requires Linear(disk, log) && k < |log|
    ensures Follows(disk, log[..k], log[k]) && (log[k].Began? <==> k % 2 == 0)
    decreases |log|
  {
    var p := log[..|log| - 1];
    if k < |log| - 1 {
      LinearAt(disk, p, k);
      assert p[..k] == log[..k];
    } else if k > 0 {
      LinearAt(disk, p, k - 1);
      assert p[k - 1] == Last(p);
    }
  }

  /** The result a caller reads is the completion of its own sector: the one request it last began. */
  lemma OwnResult(threads: set<Tid>, disk: seq<Sector>, buf: Sector, steps: seq<Step>, s: State, t: Tid)
    requires Run(Init(threads, disk, buf), steps, s) && At(s, t, Check)
    ensures var th := s.threads[t];
            && th.i < |th.data| && |s.log| >= 2
            && s.log[|s.log| - 2] == Began(t, ToU32(th.sector + th.i), th.write, th.data[th.i])
            && Last(s.log) == Ended(ToU32(th.sector + th.i), th.write, s.result, s.dev.buf)
  {
    Reached(threads, disk, buf, steps, s);
    hide Inv, ThreadOk;
    Inner(disk, s, t);
  }

  /** A call that returns 0 moved every one of its sectors, each by a request of its own since the call began. */
  lemma Transferred(threads: set<Tid>, disk: seq<Sector>, buf: Sector, steps: seq<Step>, s: State, t: Tid, j: nat)
    requires Run(Init(threads, disk, buf), steps, s) && At(s, t, Returned(Ok)) && j < |s.threads[t].data|
    ensures exists k: nat :: s.threads[t].since <= k && k + 1 < |s.log| && ServedAt(s.log, t, s.threads[t], j, k)
  {
    Reached(threads, disk, buf, steps, s);
    hide Linear, Replay, Exclusive, PhasesOk;
    assert ThreadOk(s.log, t, s.threads[t]);
    assert Served(s.log, t, s.threads[t], j);
  }

  /** Nobody sleeps on lh_clear while it could be taken, nor on lh_done while a completion waits; the driver never
      loses the token: it is in lh_clear exactly when no thread is between its P and its V. */
  lemma TokenKept(threads: set<Tid>, disk: seq<Sector>, buf: Sector, steps: seq<Step>, s: State)
    requires Run(Init(threads, disk, buf), steps, s)
    ensures s.clear.count > 0 ==> s.clear.sleepers == {}
    ensures s.done.count > 0 ==> s.done.sleepers == {}
    ensures s.clear.count <= 1 && s.done.count <= 1
    ensures s.clear.count == 1 <==> forall t :: t in s.threads ==> !Inside(s.threads[t].pc)
    ensures forall t, u :: t in s.threads && u in s.threads && Inside(s.threads[t].pc) && Inside(s.threads[u].pc) ==>
              t == u
  {
    Reached(threads, disk, buf, steps, s);
    hide Linear, Replay, ThreadOk;
    if s.clear.count == 0 {
      var t :| t in s.threads && Inside(s.threads[t].pc);
      assert PhaseOk(s, t, s.threads[t]);
    }
  }

  /** With an offset that is not negative the range check keeps the requests of an accepted call on the disk. A
      negative one wraps, to a first request within 2^22 of the last sector number there is, which the device is left
      to refuse unless it is as large as that. */
  lemma InRange(offset: int, resid: nat, blocks: nat, i: nat)
    requires -0x8000_0000 <= offset < 0x8000_0000 && resid < U32 && blocks < U32
    requires Accepted(offset, resid, blocks) && i < resid / SECTSIZE
    ensures offset >= 0 ==> ToU32(ToU32(CDiv(offset, SECTSIZE)) + i) == offset / SECTSIZE + i < blocks
    ensures offset < 0 ==> ToU32(ToU32(CDiv(offset, SECTSIZE)) + 0) >= U32 - 0x40_0000
    ensures offset < 0 ==>
              (ToU32(ToU32(CDiv(offset, SECTSIZE)) + 0) >= blocks <==> blocks * SECTSIZE <= U32 * SECTSIZE + offset)
  {
    Sectors(offset);
    hide ToU32, CDiv;
    var q, n := CDiv(offset, SECTSIZE), resid / SECTSIZE;
    if offset >= 0 {
      Unwrapped(q);
      Unwrapped(q + n);
      Unwrapped(q + i);
    } else {
      Wrapped(q);
      Unwrapped(ToU32(q) + 0);
    }
  }

  lemma Sectors(offset: int)
    requires -0x8000_0000 <= offset < 0x8000_0000 && offset % SECTSIZE == 0
    ensures offset == SECTSIZE * CDiv(offset, SECTSIZE) && -0x40_0000 <= CDiv(offset, SECTSIZE) < 0x40_0000
  {
    if offset < 0 {
      assert -offset == SECTSIZE * (-offset / SECTSIZE) + -offset % SECTSIZE;
      assert -offset % SECTSIZE == 0;
    }
  }

  /** The wrap is real. */
  lemma NegativeAccepted(blocks: nat)
    ensures Accepted(-512, 512, blocks)
  {
  }
}
