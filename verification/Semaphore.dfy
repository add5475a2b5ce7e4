/** Model of semaphores (kern/thread/synch.c P and V). Interrupts are off inside both, so a pass round the loop of P
    and the whole of V are each one step; thread_wakeup wakes every sleeper, and each tests the count again. */
module Semaphore {

  type Tid = nat

  datatype Sem = Sem(count: nat, sleepers: set<Tid>)

  datatype Step = TryP(t: Tid) | DoV

  /** One pass of P: take one, or go to sleep on the semaphore. */
  function P(s: Sem, t: Tid): Sem {
    if s.count == 0 then s.(sleepers := s.sleepers + {t}) else s.(count := s.count - 1)
  }

  function V(s: Sem): Sem {
    Sem(s.count + 1, {})
  }

  predicate Enabled(s: Sem, x: Step) {
    match x
    case TryP(t) => t !in s.sleepers
    case DoV => true
  }

  function Next(s: Sem, x: Step): Sem {
    match x
    case TryP(t) => P(s, t)
    case DoV => V(s)
  }

  /** Nobody sleeps on a semaphore that could be taken. */
  predicate Ok(s: Sem) {
    s.count > 0 ==> s.sleepers == {}
  }

  ghost predicate Run(s: Sem, steps: seq<Step>, s': Sem)
    decreases |steps|
  {
    if steps == [] then s' == s else Enabled(s, steps[0]) && Run(Next(s, steps[0]), steps[1..], s')
  }

  function CountV(steps: seq<Step>): nat {
    if steps == [] then 0 else (if steps[0].DoV? then 1 else 0) + CountV(steps[1..])
  }

  /** The number of calls of P that return during the steps. */
  function CountP(s: Sem, steps: seq<Step>): nat
    decreases |steps|
  {
    if steps == [] then 0
    else (if steps[0].TryP? && s.count > 0 then 1 else 0) + CountP(Next(s, steps[0]), steps[1..])
  }

  /** Over every run: the count is the initial one plus the Vs minus the Ps that returned, and a positive count
      means nobody sleeps. */
  lemma {:induction false} Conservation(s: Sem, steps: seq<Step>, s': Sem)
    requires Ok(s) && Run(s, steps, s')
    ensures Ok(s') && s'.count == s.count + CountV(steps) - CountP(s, steps)
    decreases |steps|
  {
    if steps != [] { Conservation(Next(s, steps[0]), steps[1..], s'); }
  }

  /** No P returns ahead of its V, and whoever still sleeps has no V left over for it. */
  lemma NoneOwed(n: nat, steps: seq<Step>, s: Sem)
    requires Run(Sem(n, {}), steps, s)
    ensures CountP(Sem(n, {}), steps) <= n + CountV(steps)
    ensures s.sleepers != {} ==> CountP(Sem(n, {}), steps) == n + CountV(steps)
  {
    Conservation(Sem(n, {}), steps, s);
  }
}
