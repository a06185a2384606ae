/** The counter that switches hooking off, and the recursive mutex around it (memchk_hook.c). */
module HookGuard {

  type Tid = nat

  /** Where a thread is: `Idle` outside the guard's code, otherwise between two of its statements. */
  datatype Pc =
    | Idle
    | Disabling                  // in mc_disable_hook, mutex locked, counter not yet raised
    | Enabling                   // in mc_enable_hook, counter lowered, mutex not yet unlocked
    | Checking                   // in malloc, free or realloc, mutex locked, counter not yet read
    | Decided(bypass: bool)      // counter read, mutex not yet unlocked

  /** `open` counts the disable sections the thread is in. */
  datatype Thread = Thread(pc: Pc, open: nat)

  datatype Owner = Nobody | By(tid: Tid)

  datatype State = State(owner: Owner, depth: nat, doNotHook: int, threads: map<Tid, Thread>)

  predicate Initial(s: State)
  {
    s.owner == Nobody && s.depth == 0 && s.doNotHook == 0
    && forall t :: t in s.threads ==> s.threads[t] == Thread(Idle, 0)
  }

  predicate CanLock(s: State, t: Tid)
  {
    s.owner == Nobody || s.owner == By(t)
  }

  function Lock(s: State, t: Tid): State
  {
    s.(owner := By(t), depth := s.depth + 1)
  }

  function Unlock(s: State): State
  {
    if s.depth <= 1 then s.(owner := Nobody, depth := 0) else s.(depth := s.depth - 1)
  }

  function At(s: State, t: Tid, th: Thread): State
  {
    s.(threads := s.threads[t := th])
  }

  /**
    One statement of thread `t`. A thread leaves only disable sections it has entered; nothing else is
    assumed about the interleaving.
   */
  predicate Next(s: State, s': State, t: Tid)
  {
    && t in s.threads
    && var th := s.threads[t];
    match th.pc
    case Idle =>
      || (CanLock(s, t) && s' == At(Lock(s, t), t, Thread(Disabling, th.open)))
      || (CanLock(s, t) && s' == At(Lock(s, t), t, Thread(Checking, th.open)))
      || (th.open > 0 && s' == At(s.(doNotHook := s.doNotHook - 1), t, Thread(Enabling, th.open - 1)))
    case Disabling =>
      s' == At(s.(doNotHook := s.doNotHook + 1), t, Thread(Idle, th.open + 1))
    case Enabling =>
      s' == At(Unlock(s), t, Thread(Idle, th.open))
    case Checking =>
      s' == At(s, t, Thread(Decided(s.doNotHook != 0), th.open))
    case Decided(bypass) =>
      s' == At(Unlock(s), t, Thread(Idle, th.open))
  }

  /** How many times a thread holds the mutex: once per open section, and once inside the guard's code. */
  function Holds(th: Thread): nat
  {
    th.open + if th.pc == Idle then 0 else 1
  }

  ghost predicate Inv(s: State)
  {
    && (s.owner == Nobody ==> s.depth == 0 && s.doNotHook == 0)
    && (s.owner.By? ==>
          && s.owner.tid in s.threads && s.depth == Holds(s.threads[s.owner.tid]) > 0
          && s.doNotHook == s.threads[s.owner.tid].open)
    && (forall t :: t in s.threads && s.owner != By(t) ==> Holds(s.threads[t]) == 0)
    && (forall t :: t in s.threads && s.threads[t].pc.Decided? ==>
          (s.threads[t].pc.bypass <==> s.threads[t].open > 0))
  }

  /** An interleaving: each state follows from the one before by a step of some thread. */
  ghost predicate Interleaving(run: seq<State>, who: seq<Tid>)
  {
    && |run| == |who| + 1 && Initial(run[0])
    && forall i :: 0 <= i < |who| ==> Next(run[i], run[i + 1], who[i])
  }

  lemma StepInv(s: State, s': State, t: Tid)
    requires Inv(s) && Next(s, s', t)
    ensures Inv(s')
  {
  }

  lemma {:induction false} RunInv(run: seq<State>, who: seq<Tid>, i: nat)
    requires Interleaving(run, who) && i < |run|
    ensures Inv(run[i])
  {
    if i > 0 {
      RunInv(run, who, i - 1);
      StepInv(run[i - 1], run[i], who[i - 1]);
    }
  }

  /**
    In every interleaving: the counter is the number of open disable sections of the mutex owner, and 0
    while the mutex is free; no other thread is in a section; and whatever a thread has decided from
    the counter, it has decided to bypass tracking exactly if it is itself in a disable section.
   */
  lemma BypassIffInside(run: seq<State>, who: seq<Tid>, i: nat, t: Tid)
    requires Interleaving(run, who) && i < |run| && t in run[i].threads
    ensures var s, th := run[i], run[i].threads[t];
      && (s.owner == Nobody ==> s.doNotHook == 0)
      && (s.owner == By(t) ==> s.doNotHook == th.open)
      && (s.owner != By(t) ==> th.open == 0)
      && (th.pc.Decided? ==> (th.pc.bypass <==> th.open > 0))
  {
    RunInv(run, who, i);
  }

  /** A thread outside the guard's code that is in a section, or any such thread while nobody is. */
  ghost predicate MayEnter(s: State, t: Tid)
  {
    && t in s.threads && s.threads[t].pc == Idle
    && (s.threads[t].open > 0 || forall u :: u in s.threads ==> Holds(s.threads[u]) == 0)
  }

  /**
    From every reachable state such a thread can go through a check: it locks, decides to bypass exactly
    if it is in a section, and unlocks, which leaves everything as it was.
   */
  lemma CheckGoesThrough(run: seq<State>, who: seq<Tid>, i: nat, t: Tid) returns (s1: State, s2: State)
    requires Interleaving(run, who) && i < |run| && MayEnter(run[i], t)
    ensures var s := run[i]; var open := s.threads[t].open;
      && Next(s, s1, t) && s1.threads == s.threads[t := Thread(Checking, open)]
      && Next(s1, s2, t) && s2.threads == s.threads[t := Thread(Decided(open > 0), open)]
      && Next(s2, s, t)
  {
    RunInv(run, who, i);
    var s := run[i];
    var th := s.threads[t];
    s1 := At(Lock(s, t), t, Thread(Checking, th.open));
    s2 := At(s1, t, Thread(Decided(s1.doNotHook != 0), th.open));
    assert s.threads[t := s.threads[t]] == s.threads;
  }

  /** It can enter one more section, after which one more is open. */
  lemma DisableGoesThrough(run: seq<State>, who: seq<Tid>, i: nat, t: Tid) returns (s1: State, s2: State)
    requires Interleaving(run, who) && i < |run| && MayEnter(run[i], t)
    ensures var s := run[i]; var open := s.threads[t].open;
      && Next(s, s1, t) && s1.threads == s.threads[t := Thread(Disabling, open)]
      && Next(s1, s2, t) && s2.threads == s.threads[t := Thread(Idle, open + 1)] && s2.doNotHook == open + 1
  {
    RunInv(run, who, i);
    var s := run[i];
    var th := s.threads[t];
    s1 := At(Lock(s, t), t, Thread(Disabling, th.open));
    s2 := At(s1.(doNotHook := s1.doNotHook + 1), t, Thread(Idle, th.open + 1));
  }

  /** And it can leave a section it is in. */
  lemma EnableGoesThrough(run: seq<State>, who: seq<Tid>, i: nat, t: Tid) returns (s1: State, s2: State)
    requires Interleaving(run, who) && i < |run| && MayEnter(run[i], t) && run[i].threads[t].open > 0
    ensures var s := run[i]; var open := s.threads[t].open;
      && Next(s, s1, t) && s1.threads == s.threads[t := Thread(Enabling, open - 1)]
      && Next(s1, s2, t) && s2.threads == s.threads[t := Thread(Idle, open - 1)] && s2.doNotHook == open - 1
  {
    RunInv(run, who, i);
    var s := run[i];
    var th := s.threads[t];
    s1 := At(s.(doNotHook := s.doNotHook - 1), t, Thread(Enabling, th.open - 1));
    s2 := At(Unlock(s1), t, Thread(Idle, th.open - 1));
  }

  /** Whatever step a checking thread takes, it decides to bypass exactly if it is in a section. */
  lemma CheckDecides(run: seq<State>, who: seq<Tid>, i: nat, next: State, t: Tid)
    requires Interleaving(run, who) && i < |run| && t in run[i].threads && run[i].threads[t].pc == Checking
    requires Next(run[i], next, t)
    ensures next.threads[t] == Thread(Decided(run[i].threads[t].open > 0), run[i].threads[t].open)
  {
    RunInv(run, who, i);
  }

  /** Two threads are never both between the guard's statements, nor in sections, at once. */
  lemma MutualExclusion(run: seq<State>, who: seq<Tid>, i: nat, t: Tid, u: Tid)
    requires Interleaving(run, who) && i < |run| && t in run[i].threads && u in run[i].threads
    requires Holds(run[i].threads[t]) > 0 && Holds(run[i].threads[u]) > 0
    ensures t == u
  {
    RunInv(run, who, i);
  }
}
