/**
 Epoch-based reclamation and the slot quarantine of the buffer pool. A pin is two steps
 (load the global epoch, then publish it in the thread's word) and a reclaim attempt is two
 steps (read every participant, then advance and drop), so other threads may act between.
 */
module Epoch {
  import opened Bytes

  type Thread = nat
  type Slot = (nat, nat)

  /** A retired object, numbered by retirement, with its retirement epoch. */
  datatype Retired = Retired(obj: nat, epoch: nat)

  datatype Freed = Freed(slots: seq<Slot>, epoch: nat)

  /** What a reclaim attempt read: the oldest active epoch and whether all were current. */
  datatype Scan = Scan(oldest: Option<nat>, caughtUp: bool)

  /** A live guard. `prev` is the word it restores, `base` the global epoch when it was
      published, and `settled` says that no reclaim attempt begun earlier is still running. */
  datatype Guard = Guard(thread: Thread, epoch: nat, prev: Option<nat>, base: nat, settled: bool)

  datatype State = State(
    global: nat,
    participants: seq<Thread>,
    gone: set<Thread>,                // threads that exited and await removal
    words: map<Thread, Option<nat>>,  // active epochs, None when inactive
    loaded: map<Thread, nat>,         // epochs read by pins not yet published
    stacks: map<Thread, seq<nat>>,    // guards of each thread, outermost first
    guards: map<nat, Guard>,
    nextGuard: nat,
    pending: seq<Retired>,
    retired: nat,
    reclaimed: nat,
    scan: Option<Scan>,
    quarantine: seq<Freed>,
    reusable: seq<Slot>
  )

  const Init: State := State(1, [], {}, map[], map[], map[], map[], 0, [], 0, 0, None, [], [])

  datatype Event =
    | Register(t: Thread)
    | Leave(t: Thread)
    | PinLoad(t: Thread)
    | PinStore(t: Thread)
    | Unpin(t: Thread)
    | Retire
    | BeginReclaim
    | FinishReclaim
    | Free(slots: seq<Slot>)
    | Release

  function StackOf(s: State, t: Thread): seq<nat> { if t in s.stacks then s.stacks[t] else [] }

  function WordOf(s: State, t: Thread): Option<nat> { if t in s.words then s.words[t] else None }

  // ---------------------------------------------------------------------
  // Steps
  // ---------------------------------------------------------------------

  function Staying(ps: seq<Thread>, gone: set<Thread>): seq<Thread> {
    if ps == [] then []
    else Staying(ps[..|ps| - 1], gone) + if ps[|ps| - 1] in gone then [] else [ps[|ps| - 1]]
  }

  function MinOf(a: Option<nat>, b: Option<nat>): Option<nat> {
    if a.None? then b else if b.None? then a else if b.value < a.value then b else a
  }

  function Oldest(ps: seq<Thread>, words: map<Thread, Option<nat>>): Option<nat> {
    if ps == [] then None
    else MinOf(Oldest(ps[..|ps| - 1], words), if ps[|ps| - 1] in words then words[ps[|ps| - 1]] else None)
  }

  predicate CaughtUp(ps: seq<Thread>, words: map<Thread, Option<nat>>, global: nat) {
    forall i :: 0 <= i < |ps| && ps[i] in words && words[ps[i]].Some? ==> words[ps[i]].value >= global
  }

  function Kept(pending: seq<Retired>, horizon: nat): (kept: seq<Retired>)
    ensures |kept| <= |pending|
  {
    if pending == [] then []
    else
      Kept(pending[..|pending| - 1], horizon) +
      if pending[|pending| - 1].epoch >= horizon then [pending[|pending| - 1]] else []
  }

  /** Quarantined slots stay while their free is not two epochs old. */
  function Held(quarantine: seq<Freed>, global: nat): seq<Freed> {
    if quarantine == [] then []
    else
      Held(quarantine[..|quarantine| - 1], global) +
      if quarantine[|quarantine| - 1].epoch + 1 < global then [] else [quarantine[|quarantine| - 1]]
  }

  function Freeing(quarantine: seq<Freed>, global: nat): seq<Slot> {
    if quarantine == [] then []
    else
      Freeing(quarantine[..|quarantine| - 1], global) +
      if quarantine[|quarantine| - 1].epoch + 1 < global then quarantine[|quarantine| - 1].slots else []
  }

  function NextGlobal(s: State): nat
    requires s.scan.Some?
  {
    if s.scan.value.caughtUp then s.global + 1 else s.global
  }

  function Horizon(s: State): nat
    requires s.scan.Some?
  {
    if s.scan.value.oldest.Some? then s.scan.value.oldest.value else NextGlobal(s)
  }

  predicate Enabled(s: State, e: Event) {
    match e
    case Register(t) => t !in s.words && s.scan.None?
    case Leave(t) => t in s.words && t !in s.gone && t !in s.loaded && StackOf(s, t) == []
    case PinLoad(t) => t in s.words && t !in s.gone && t !in s.loaded
    case PinStore(t) => t in s.loaded && t in s.words
    case Unpin(t) => StackOf(s, t) != [] && t !in s.loaded && TopOf(s, t) in s.guards
    case BeginReclaim => s.scan.None?
    case FinishReclaim => s.scan.Some?
    case _ => true
  }

  /** The swap of a pin: the loaded epoch is published and the old word kept for the drop. */
  function Pinned(s: State, t: Thread): State
    requires t in s.loaded && t in s.words
  {
    s.(words := s.words[t := Some(s.loaded[t])],
       loaded := s.loaded - {t},
       stacks := s.stacks[t := StackOf(s, t) + [s.nextGuard]],
       guards := s.guards[s.nextGuard := Guard(t, s.loaded[t], s.words[t], s.global, s.scan.None?)],
       nextGuard := s.nextGuard + 1)
  }

  function TopOf(s: State, t: Thread): nat
    requires StackOf(s, t) != []
  {
    StackOf(s, t)[|StackOf(s, t)| - 1]
  }

  function Unpinned(s: State, t: Thread): State
    requires StackOf(s, t) != [] && TopOf(s, t) in s.guards
  {
    s.(words := s.words[t := s.guards[TopOf(s, t)].prev],
       stacks := s.stacks[t := StackOf(s, t)[..|StackOf(s, t)| - 1]],
       guards := s.guards - {TopOf(s, t)})
  }

  function Scanned(s: State): State {
    var ps := Staying(s.participants, s.gone);
    s.(participants := ps, scan := Some(Scan(Oldest(ps, s.words), CaughtUp(ps, s.words, s.global))))
  }

  function Swept(s: State): State
    requires s.scan.Some?
  {
    var kept := Kept(s.pending, Horizon(s));
    s.(global := NextGlobal(s), pending := kept, reclaimed := s.reclaimed + |s.pending| - |kept|,
       guards := map g | g in s.guards :: s.guards[g].(settled := true), scan := None)
  }

  function Retiring(s: State): State {
    s.(pending := s.pending + [Retired(s.retired, s.global)], retired := s.retired + 1)
  }

  function Next(s: State, e: Event): State
    requires Enabled(s, e)
  {
    match e
    case Register(t) =>
      s.(participants := s.participants + [t], words := s.words[t := None], stacks := s.stacks[t := []])
    case Leave(t) => s.(gone := s.gone + {t})
    case PinLoad(t) => s.(loaded := s.loaded[t := s.global])
    case PinStore(t) => Pinned(s, t)
    case Unpin(t) => Unpinned(s, t)
    case Retire => Retiring(s)
    case BeginReclaim => Scanned(s)
    case FinishReclaim => Swept(s)
    case Free(slots) => s.(quarantine := s.quarantine + [Freed(slots, s.global)])
    case Release => s.(quarantine := Held(s.quarantine, s.global), reusable := s.reusable + Freeing(s.quarantine, s.global))
  }

  /** The discipline asked of the threads `d`: a pin nested inside another of its thread
      publishes no later epoch than the outer. Other threads may do anything. */
  predicate Nests(d: set<Thread>, s: State, e: Event) {
    e.PinStore? && e.t in d && e.t in s.loaded && StackOf(s, e.t) != [] ==>
      WordOf(s, e.t).Some? && s.loaded[e.t] <= WordOf(s, e.t).value
  }

  /** A continuation, from any state, in which the threads `d` nest their pins. */
  ghost predicate Path(d: set<Thread>, ss: seq<State>, es: seq<Event>) {
    && |ss| == |es| + 1
    && forall i :: 0 <= i < |es| ==> Enabled(ss[i], es[i]) && Nests(d, ss[i], es[i]) && ss[i + 1] == Next(ss[i], es[i])
  }

  ghost predicate Run(d: set<Thread>, ss: seq<State>, es: seq<Event>) { Path(d, ss, es) && ss[0] == Init }

  // ---------------------------------------------------------------------
  // What every step keeps
  // ---------------------------------------------------------------------

  ghost predicate Counted(s: State) {
    && s.retired == s.reclaimed + |s.pending|
    && (forall i :: 0 <= i < |s.pending| ==> s.pending[i].obj < s.retired && s.pending[i].epoch <= s.global)
  }

  ghost predicate Threads(s: State) {
    && s.stacks.Keys == s.words.Keys
    && (forall t :: t in s.words && t !in s.gone ==> t in s.participants)
    && (forall t :: t in s.gone ==> t in s.words && s.stacks[t] == [] && t !in s.loaded)
    && (forall t :: t in s.loaded ==> t in s.words && s.loaded[t] <= s.global)
    && (forall t :: t in s.words && s.words[t].Some? ==> s.words[t].value <= s.global)
    && (forall g :: g in s.guards && s.guards[g].prev.Some? ==> s.guards[g].prev.value <= s.global)
  }

  /** The guards of thread `t`, and the word each of them restores; no later than the epochs
      of the guards below when the thread nests its pins. */
  ghost predicate StackOk(s: State, t: Thread, nests: bool) {
    var stack := StackOf(s, t);
    && (forall k :: 0 <= k < |stack| ==> stack[k] in s.guards && s.guards[stack[k]].thread == t)
    && (forall j, k :: 0 <= j < k < |stack| ==> stack[j] < stack[k] && s.guards[stack[k]].prev.Some?)
    && (stack == [] <==> WordOf(s, t).None?)
    && (stack != [] ==> s.guards[stack[0]].prev.None?)
    && (nests ==> forall j, k :: 0 <= j < k < |stack| ==> s.guards[stack[k]].prev.value <= s.guards[stack[j]].epoch)
    && (nests ==> forall k :: 0 <= k < |stack| ==> WordOf(s, t).value <= s.guards[stack[k]].epoch)
  }

  ghost predicate Stacks(d: set<Thread>, s: State) {
    && (forall t :: t in s.stacks ==> StackOk(s, t, t in d))
    && (forall g :: g in s.guards ==> g < s.nextGuard && g in StackOf(s, s.guards[g].thread))
  }

  /** A live guard holds the global epoch back, and every reclaim attempt begun since. */
  ghost predicate GuardOk(s: State, g: Guard) {
    && g.epoch <= g.base <= s.global <= g.base + 1
    && (s.scan.Some? && s.scan.value.caughtUp ==> s.global == g.base)
    && (s.scan.Some? && g.settled ==> s.scan.value.oldest.Some? && s.scan.value.oldest.value <= g.epoch)
    && (s.scan.None? ==> g.settled)
  }

  /** An attempt that saw nobody may advance, and one that saw somebody saw no later epoch. */
  ghost predicate ScanOk(s: State) {
    s.scan.Some? ==> if s.scan.value.oldest.Some? then s.scan.value.oldest.value <= s.global else s.scan.value.caughtUp
  }

  ghost predicate Inv(d: set<Thread>, s: State) {
    && Counted(s) && Threads(s) && Stacks(d, s) && ScanOk(s)
    && forall g :: g in s.guards && s.guards[g].thread in d ==> GuardOk(s, s.guards[g])
  }

  lemma {:induction false} KeptMembers(pending: seq<Retired>, horizon: nat)
    ensures forall r :: r in Kept(pending, horizon) <==> r in pending && r.epoch >= horizon
  {
    if pending != [] {
      KeptMembers(pending[..|pending| - 1], horizon);
    }
  }

  lemma {:induction false} HeldMembers(q: seq<Freed>, global: nat)
    ensures forall f :: f in Held(q, global) <==> f in q && !(f.epoch + 1 < global)
    ensures forall x :: x in Freeing(q, global) <==> exists f :: f in q && f.epoch + 1 < global && x in f.slots
  {
    if q != [] {
      HeldMembers(q[..|q| - 1], global);
    }
  }

  lemma HeldNone(global: nat)
    ensures Held([], global) == [] && Freeing([], global) == []
  {
  }

  lemma HeldNext(q: seq<Freed>, n: nat, global: nat)
    requires n < |q|
    ensures Held(q[..n + 1], global) == Held(q[..n], global) + if q[n].epoch + 1 < global then [] else [q[n]]
    ensures Freeing(q[..n + 1], global) == Freeing(q[..n], global) + if q[n].epoch + 1 < global then q[n].slots else []
  {
    assert q[..n + 1][..n] == q[..n];
  }

  lemma {:induction false} StayingMembers(ps: seq<Thread>, gone: set<Thread>)
    ensures forall t :: t in Staying(ps, gone) <==> t in ps && t !in gone
  {
    if ps != [] {
      StayingMembers(ps[..|ps| - 1], gone);
    }
  }

  /** The oldest active epoch is at most every participant's. */
  lemma {:induction false} OldestBound(ps: seq<Thread>, words: map<Thread, Option<nat>>, t: Thread)
    requires t in ps && t in words && words[t].Some?
    ensures Oldest(ps, words).Some? && Oldest(ps, words).value <= words[t].value
  {
    var init, last := ps[..|ps| - 1], ps[|ps| - 1];
    if t in init {
      OldestBound(init, words, t);
    } else {
      assert last == t;
    }
  }

  predicate SameGuard(a: Guard, b: Guard) {
    a.thread == b.thread && a.epoch == b.epoch && a.base == b.base && a.prev == b.prev && (a.settled ==> b.settled)
  }

  /** A step that leaves a thread's guards and word alone keeps its stack in order. */
  lemma StackFrame(s: State, s': State, t: Thread, nests: bool)
    requires StackOk(s, t, nests) && StackOf(s', t) == StackOf(s, t) && WordOf(s', t) == WordOf(s, t)
    requires forall g :: g in s.guards && s.guards[g].thread == t ==> g in s'.guards && SameGuard(s.guards[g], s'.guards[g])
    ensures StackOk(s', t, nests)
  {
  }

  lemma EmptyStack(s: State, t: Thread, nests: bool)
    requires StackOf(s, t) == [] && WordOf(s, t).None?
    ensures StackOk(s, t, nests)
  {
  }

  lemma PushStack(d: set<Thread>, s: State, t: Thread)
    requires StackOk(s, t, t in d) && Enabled(s, PinStore(t)) && Nests(d, s, PinStore(t))
    requires forall g :: g in s.guards ==> g < s.nextGuard
    ensures StackOk(Pinned(s, t), t, t in d)
  {
    var s' := Pinned(s, t);
    var stack, stack', id := StackOf(s, t), StackOf(s', t), s.nextGuard;
    assert stack' == stack + [id] && WordOf(s', t) == Some(s.loaded[t]) && s'.guards[id].prev == WordOf(s, t);
    assert forall k :: 0 <= k < |stack| ==> stack'[k] == stack[k] && s'.guards[stack[k]] == s.guards[stack[k]];
    hide Pinned, StackOf, WordOf;
  }

  lemma PinStacks(d: set<Thread>, s: State, t: Thread)
    requires Stacks(d, s) && Enabled(s, PinStore(t)) && Nests(d, s, PinStore(t)) && t in s.stacks
    ensures Stacks(d, Pinned(s, t))
  {
    hide StackOk;
    var s' := Pinned(s, t);
    PushStack(d, s, t);
    forall u | u in s'.stacks && u != t ensures StackOk(s', u, u in d) { StackFrame(s, s', u, u in d); }
    forall g | g in s'.guards ensures g < s'.nextGuard && g in StackOf(s', s'.guards[g].thread) {
      if g != s.nextGuard {
        assert g in StackOf(s, s.guards[g].thread);
      }
    }
  }

  lemma LoadedOld(s: State, t: Thread)
    requires Threads(s) && t in s.loaded
    ensures s.loaded[t] <= s.global
  {
  }

  lemma PopStack(s: State, t: Thread, nests: bool)
    requires StackOk(s, t, nests) && Enabled(s, Unpin(t))
    ensures StackOk(Unpinned(s, t), t, nests)
    ensures s.guards[TopOf(s, t)].thread == t
  {
    var s' := Unpinned(s, t);
    var stack := StackOf(s, t);
    var n := |stack| - 1;
    assert StackOf(s', t) == stack[..n];
    assert forall k :: 0 <= k < n ==> stack[k] != stack[n] && stack[..n][k] == stack[k];
  }

  lemma UnpinStacks(d: set<Thread>, s: State, t: Thread)
    requires Stacks(d, s) && Enabled(s, Unpin(t)) && t in s.stacks
    ensures Stacks(d, Unpinned(s, t))
  {
    hide StackOk;
    var s' := Unpinned(s, t);
    var stack := StackOf(s, t);
    assert stack == stack[..|stack| - 1] + [stack[|stack| - 1]];
    PopStack(s, t, t in d);
    forall u | u in s'.stacks && u != t ensures StackOk(s', u, u in d) { StackFrame(s, s', u, u in d); }
    forall g | g in s'.guards ensures g < s'.nextGuard && g in StackOf(s', s'.guards[g].thread) {
      assert g in StackOf(s, s.guards[g].thread);
    }
  }

  /** Every other step leaves guards and words alone. */
  lemma QuietStacks(d: set<Thread>, s: State, e: Event)
    requires Stacks(d, s) && Enabled(s, e) && !e.PinStore? && !e.Unpin? && s.stacks.Keys == s.words.Keys
    ensures Stacks(d, Next(s, e))
  {
    hide StackOk;
    var s' := Next(s, e);
    forall t | t in s'.stacks ensures StackOk(s', t, t in d) {
      if e.Register? && t == e.t {
        EmptyStack(s', t, t in d);
      } else {
        StackFrame(s, s', t, t in d);
      }
    }
    forall g | g in s'.guards ensures g < s'.nextGuard && g in StackOf(s', s'.guards[g].thread) {
      assert g in StackOf(s, s.guards[g].thread);
    }
  }

  lemma StacksStep(d: set<Thread>, s: State, e: Event)
    requires Stacks(d, s) && Threads(s) && Enabled(s, e) && Nests(d, s, e)
    ensures Stacks(d, Next(s, e))
  {
    hide Stacks, Nests, Pinned, Unpinned;
    match e
    case PinStore(t) => PinStacks(d, s, t);
    case Unpin(t) => UnpinStacks(d, s, t);
    case _ => QuietStacks(d, s, e);
  }

  lemma ThreadsStep(d: set<Thread>, s: State, e: Event)
    requires Stacks(d, s) && Threads(s) && Enabled(s, e)
    ensures Threads(Next(s, e))
  {
    StayingMembers(s.participants, s.gone);
    hide Stacks, Staying, Oldest, Kept, Held, Freeing;
  }

  lemma CountedStep(s: State, e: Event)
    requires Counted(s) && Enabled(s, e)
    ensures Counted(Next(s, e))
  {
    if e.FinishReclaim? {
      var s' := Next(s, e);
      KeptMembers(s.pending, Horizon(s));
      forall i | 0 <= i < |s'.pending|
        ensures s'.pending[i].obj < s'.retired && s'.pending[i].epoch <= s'.global
      {
        assert s'.pending[i] in s.pending;
      }
    }
  }

  lemma {:induction false} OldestAtMost(ps: seq<Thread>, words: map<Thread, Option<nat>>, global: nat)
    requires forall t :: t in words && words[t].Some? ==> words[t].value <= global
    ensures Oldest(ps, words).Some? ==> Oldest(ps, words).value <= global
  {
    if ps != [] {
      OldestAtMost(ps[..|ps| - 1], words, global);
    }
  }

  lemma {:induction false} NobodySeen(ps: seq<Thread>, words: map<Thread, Option<nat>>, global: nat)
    ensures Oldest(ps, words).None? ==> CaughtUp(ps, words, global)
  {
    if ps != [] {
      NobodySeen(ps[..|ps| - 1], words, global);
    }
  }

  lemma ScanStep(s: State, e: Event)
    requires Threads(s) && ScanOk(s) && Enabled(s, e)
    ensures ScanOk(Next(s, e))
  {
    hide Staying, Oldest, Kept, Held, Freeing;
    if e.BeginReclaim? {
      var ps := Staying(s.participants, s.gone);
      OldestAtMost(ps, s.words, s.global);
      NobodySeen(ps, s.words, s.global);
    }
  }

  /** A live guard's thread is registered and active, with an epoch no later than the
      guard's when it nests its pins. */
  lemma GuardWord(d: set<Thread>, s: State, g: nat)
    requires Threads(s) && Stacks(d, s) && g in s.guards
    ensures var t := s.guards[g].thread;
            && t in s.participants && t !in s.gone && t in s.words && s.words[t].Some? && t in s.stacks
            && (t in d ==> s.words[t].value <= s.guards[g].epoch)
  {
    var t := s.guards[g].thread;
    assert StackOk(s, t, t in d);
    var k :| 0 <= k < |StackOf(s, t)| && StackOf(s, t)[k] == g;
  }

  lemma BeginGuards(d: set<Thread>, s: State, g: nat)
    requires Threads(s) && Stacks(d, s) && Enabled(s, BeginReclaim) && g in s.guards && s.guards[g].thread in d
    requires GuardOk(s, s.guards[g])
    ensures GuardOk(Scanned(s), s.guards[g])
  {
    hide Threads, Stacks, Oldest, Staying;
    var s', t := Scanned(s), s.guards[g].thread;
    StayingMembers(s.participants, s.gone);
    GuardWord(d, s, g);
    OldestBound(s'.participants, s.words, t);
    var i :| 0 <= i < |s'.participants| && s'.participants[i] == t;
  }

  lemma SweepGuards(s: State, g: nat)
    requires s.scan.Some? && g in s.guards && GuardOk(s, s.guards[g])
    ensures GuardOk(Swept(s), Swept(s).guards[g])
  {
    hide Kept;
  }

  lemma GuardsStep(d: set<Thread>, s: State, e: Event, g: nat)
    requires Threads(s) && Stacks(d, s) && Enabled(s, e)
    requires g in Next(s, e).guards && Next(s, e).guards[g].thread in d
    requires g in s.guards && s.guards[g].thread in d ==> GuardOk(s, s.guards[g])
    ensures GuardOk(Next(s, e), Next(s, e).guards[g])
  {
    hide Held, Freeing, Oldest, Staying, Stacks, Threads;
    if e.BeginReclaim? {
      BeginGuards(d, s, g);
    } else if e.FinishReclaim? {
      SweepGuards(s, g);
    } else if e.PinStore? && g == s.nextGuard {
      LoadedOld(s, e.t);
    } else {
      hide Swept, Scanned;
      assert GuardOk(s, s.guards[g]);
    }
  }

  /** Every step keeps the invariant, with the guards of the threads that nest their pins
      holding the epoch back. */
  lemma StepInv(d: set<Thread>, s: State, e: Event)
    requires Inv(d, s) && Enabled(s, e) && Nests(d, s, e)
    ensures Inv(d, Next(s, e))
  {
    hide Next, Enabled, Nests, Threads, Stacks, Counted, GuardOk, ScanOk;
    StacksStep(d, s, e);
    ThreadsStep(d, s, e);
    CountedStep(s, e);
    ScanStep(s, e);
    forall g | g in Next(s, e).guards && Next(s, e).guards[g].thread in d
      ensures GuardOk(Next(s, e), Next(s, e).guards[g])
    {
      GuardsStep(d, s, e, g);
    }
  }

  lemma {:induction false} RunInv(d: set<Thread>, ss: seq<State>, es: seq<Event>, i: nat)
    requires Run(d, ss, es) && i < |ss|
    ensures Inv(d, ss[i])
  {
    if i > 0 {
      RunInv(d, ss, es, i - 1);
      assert Enabled(ss[i - 1], es[i - 1]) && Nests(d, ss[i - 1], es[i - 1]);
      StepInv(d, ss[i - 1], es[i - 1]);
    }
  }

  // ---------------------------------------------------------------------
  // Safety over whole runs
  // ---------------------------------------------------------------------

  ghost predicate LiveThrough(ss: seq<State>, g: nat, i: nat, m: nat) {
    forall j :: i <= j <= m && j < |ss| ==> g in ss[j].guards
  }

  /** The identity of a guard never changes, and being settled is never lost. */
  lemma StepGuard(d: set<Thread>, s: State, e: Event, g: nat)
    requires Inv(d, s) && Enabled(s, e) && g in s.guards && g in Next(s, e).guards
    ensures SameGuard(s.guards[g], Next(s, e).guards[g])
  {
    hide StackOk, Threads, Counted;
  }

  /** Guard `g` holds its thread's word at `bound` or below, now and whenever guards above it
      are dropped. */
  ghost predicate Anchored(s: State, g: nat, bound: nat) {
    g in s.guards &&
    var t := s.guards[g].thread;
    && WordOf(s, t).Some? && WordOf(s, t).value <= bound
    && forall x :: x in s.guards && s.guards[x].thread == t && x > g && s.guards[x].prev.Some? ==> s.guards[x].prev.value <= bound
  }

  /** The retired object is not dropped by an attempt under way, nor by a later one while
      guard `g` lives. */
  ghost predicate Covered(s: State, g: nat, r: Retired) {
    Anchored(s, g, r.epoch) && r in s.pending && (s.scan.Some? ==> Horizon(s) <= r.epoch)
  }

  /** A guard of a thread that nests its pins is anchored at its own epoch. */
  lemma InvAnchors(d: set<Thread>, s: State, g: nat, bound: nat)
    requires Inv(d, s) && g in s.guards && s.guards[g].thread in d && s.guards[g].epoch <= bound
    ensures Anchored(s, g, bound)
  {
    var t := s.guards[g].thread;
    GuardWord(d, s, g);
    assert StackOk(s, t, true);
  }

  /** Anchors need only the guard's own thread to nest its pins, from now on. */
  lemma StepAnchored(s: State, e: Event, g: nat, bound: nat)
    requires Inv({}, s) && Enabled(s, e) && g in s.guards && Nests({s.guards[g].thread}, s, e) && Anchored(s, g, bound)
    requires g in Next(s, e).guards
    ensures Anchored(Next(s, e), g, bound)
  {
    hide Inv, Anchored, Pinned, Unpinned;
    var t := s.guards[g].thread;
    if e == PinStore(t) {
      NestedWord(s, t, g, bound);
      PinAnchored(s, t, g, bound);
    } else if e == Unpin(t) {
      UnpinAnchored(s, t, g, bound);
    } else {
      hide Next, Enabled, Nests;
      OthersLeave(s, e, t, g);
      AnchorFrame(s, Next(s, e), g, bound);
    }
  }

  lemma NestedWord(s: State, t: Thread, g: nat, bound: nat)
    requires Inv({}, s) && Anchored(s, g, bound) && s.guards[g].thread == t && t in s.loaded && Nests({t}, s, PinStore(t))
    ensures s.loaded[t] <= bound
  {
    assert g in StackOf(s, t);
  }

  lemma PinAnchored(s: State, t: Thread, g: nat, bound: nat)
    requires Inv({}, s) && Enabled(s, PinStore(t)) && g in s.guards && s.guards[g].thread == t
    requires Anchored(s, g, bound) && s.loaded[t] <= bound
    ensures Anchored(Pinned(s, t), g, bound)
  {
    hide Inv;
    InvPlace({}, s, g);
    var s' := Pinned(s, t);
    assert WordOf(s', t) == Some(s.loaded[t]) && s'.guards[s.nextGuard].prev == WordOf(s, t);
    assert forall x :: x in s'.guards && x != s.nextGuard ==> x in s.guards && s'.guards[x] == s.guards[x];
    assert s'.guards[g] == s.guards[g];
    hide Pinned, WordOf;
  }

  /** What a step of another thread leaves alone. */
  ghost predicate LeavesThread(s: State, s': State, t: Thread) {
    && StackOf(s', t) == StackOf(s, t) && WordOf(s', t) == WordOf(s, t)
    && (forall x :: x in s.guards && s.guards[x].thread == t ==> x in s'.guards && SameGuard(s.guards[x], s'.guards[x]))
    && (forall x :: x in s'.guards && s'.guards[x].thread == t ==> x in s.guards && s.guards[x].thread == t)
  }

  lemma AnchorFrame(s: State, s': State, g: nat, bound: nat)
    requires Anchored(s, g, bound) && LeavesThread(s, s', s.guards[g].thread)
    ensures Anchored(s', g, bound)
  {
  }

  lemma OthersLeave(s: State, e: Event, t: Thread, g: nat)
    requires Inv({}, s) && Enabled(s, e) && e != PinStore(t) && e != Unpin(t) && g in s.guards && s.guards[g].thread == t
    ensures LeavesThread(s, Next(s, e), t)
  {
    hide Inv, Kept, Staying, Oldest, Held, Freeing, CaughtUp;
    InvPlace({}, s, g);
    match e
    case Unpin(u) => GuardsOwn(s, u);
    case PinStore(u) =>
    case FinishReclaim =>
    case _ =>
      hide Swept, Pinned, Unpinned;
      assert Next(s, e).guards == s.guards;
  }

  /** Where a live guard stands. */
  lemma InvPlace(d: set<Thread>, s: State, g: nat)
    requires Inv(d, s) && g in s.guards
    ensures var t := s.guards[g].thread;
            t in s.words && t in s.stacks && g in StackOf(s, t) && WordOf(s, t).Some?
    ensures s.nextGuard !in s.guards && g < s.nextGuard
    ensures s.guards[g].thread in d ==> GuardOk(s, s.guards[g])
  {
    GuardWord(d, s, g);
  }

  lemma InvStack(s: State, t: Thread)
    requires Inv({}, s) && t in s.words
    ensures StackOk(s, t, false)
  {
  }

  lemma GuardsOwn(s: State, u: Thread)
    requires Inv({}, s) && StackOf(s, u) != []
    ensures u in s.stacks && TopOf(s, u) in s.guards && s.guards[TopOf(s, u)].thread == u
  {
    assert StackOk(s, u, false);
  }

  lemma UnpinAnchored(s: State, t: Thread, g: nat, bound: nat)
    requires Inv({}, s) && Enabled(s, Unpin(t)) && g in s.guards && s.guards[g].thread == t && Anchored(s, g, bound)
    requires g in Unpinned(s, t).guards
    ensures Anchored(Unpinned(s, t), g, bound)
  {
    hide Inv;
    var stack := StackOf(s, t);
    InvPlace({}, s, g);
    InvStack(s, t);
    var j :| 0 <= j < |stack| && stack[j] == g;
    assert j < |stack| - 1;
  }

  lemma StepCovered(s: State, e: Event, g: nat, r: Retired)
    requires Inv({}, s) && Enabled(s, e) && g in s.guards && Nests({s.guards[g].thread}, s, e) && Covered(s, g, r)
    requires g in Next(s, e).guards
    ensures Covered(Next(s, e), g, r)
  {
    StepAnchored(s, e, g, r.epoch);
    hide Anchored, Counted, Stacks, ScanOk;
    if e.BeginReclaim? {
      BeginCovers(s, g, r.epoch);
    } else if e.FinishReclaim? {
      KeptMembers(s.pending, Horizon(s));
    }
  }

  lemma BeginCovers(s: State, g: nat, bound: nat)
    requires Inv({}, s) && Anchored(s, g, bound)
    ensures Horizon(Scanned(s)) <= bound
  {
    var s', t := Scanned(s), s.guards[g].thread;
    StayingMembers(s.participants, s.gone);
    GuardWord({}, s, g);
    OldestBound(s'.participants, s.words, t);
  }

  lemma FewerNest(d: set<Thread>, s: State)
    requires Inv(d, s)
    ensures Inv({}, s)
  {
    forall t | t in s.stacks ensures StackOk(s, t, false) {
      assert StackOk(s, t, t in d);
    }
  }

  lemma {:induction false} PathCovered(t: Thread, ss: seq<State>, es: seq<Event>, g: nat, j: nat, m: nat, r: Retired)
    requires Path({t}, ss, es) && j <= m < |ss| && LiveThrough(ss, g, j, m)
    requires Inv({}, ss[j]) && Covered(ss[j], g, r) && ss[j].guards[g].thread == t
    ensures Inv({}, ss[m]) && Covered(ss[m], g, r) && ss[m].guards[g].thread == t
  {
    hide Inv, Next, Enabled, Nests, Covered;
    if m > j {
      PathCovered(t, ss, es, g, j, m - 1, r);
      var s, e := ss[m - 1], es[m - 1];
      assert Enabled(s, e) && Nests({t}, s, e) && ss[m] == Next(s, e);
      assert g in ss[m - 1].guards && g in ss[m].guards;
      NestsLess({t}, s, e);
      StepCovered(s, e, g, r);
      StepInv({}, s, e);
      StepGuard({}, s, e, g);
    }
  }

  lemma NestsLess(d: set<Thread>, s: State, e: Event)
    requires Nests(d, s, e)
    ensures Nests({}, s, e) && forall t :: t in d ==> Nests({t}, s, e)
  {
  }

  // ---------------------------------------------------------------------
  // Exactly what a guard protects
  // ---------------------------------------------------------------------

  /** Whatever the threads do from here on, the object is not dropped while guard `g` lives,
      so long as the guard's own thread nests its pins. */
  ghost predicate KeptWhile(s: State, g: nat, r: Retired)
    requires g in s.guards
  {
    forall ss: seq<State>, es: seq<Event> ::
      Path({s.guards[g].thread}, ss, es) && ss[0] == s && LiveThrough(ss, g, 0, |es|) ==> r in ss[|es|].pending
  }

  lemma CoveredKept(s: State, g: nat, r: Retired)
    requires Inv({}, s) && Covered(s, g, r)
    ensures KeptWhile(s, g, r)
  {
    var t := s.guards[g].thread;
    forall ss: seq<State>, es: seq<Event> | Path({t}, ss, es) && ss[0] == s && LiveThrough(ss, g, 0, |es|)
      ensures r in ss[|es|].pending
    {
      PathCovered(t, ss, es, g, 0, |es|, r);
    }
  }

  /** What is lost one step later is lost. */
  lemma LostBefore(s: State, e: Event, g: nat, r: Retired)
    requires g in s.guards && Enabled(s, e) && Nests({s.guards[g].thread}, s, e)
    requires g in Next(s, e).guards && Next(s, e).guards[g].thread == s.guards[g].thread && !KeptWhile(Next(s, e), g, r)
    ensures !KeptWhile(s, g, r)
  {
    hide Enabled, Next, Nests;
    var t, s' := s.guards[g].thread, Next(s, e);
    var ss: seq<State>, es: seq<Event> :|
      Path({t}, ss, es) && ss[0] == s' && LiveThrough(ss, g, 0, |es|) && r !in ss[|es|].pending;
    var ss', es' := [s] + ss, [e] + es;
    assert forall i :: 0 < i < |es'| ==> es'[i] == es[i - 1] && ss'[i] == ss[i - 1] && ss'[i + 1] == ss[i];
    assert Path({t}, ss', es') && ss'[0] == s && LiveThrough(ss', g, 0, |es'|) && ss'[|es'|] == ss[|es|];
  }

  lemma LostNow(s: State, g: nat, r: Retired)
    requires g in s.guards && r !in s.pending
    ensures !KeptWhile(s, g, r)
  {
    var ss, es: seq<Event> := [s], [];
    assert Path({s.guards[g].thread}, ss, es) && ss[0] == s && LiveThrough(ss, g, 0, |es|) && r !in ss[|es|].pending;
  }

  /** An attempt under way whose horizon is past the object drops it. */
  lemma LostToAttempt(s: State, g: nat, r: Retired)
    requires g in s.guards && s.scan.Some? && Horizon(s) > r.epoch
    ensures !KeptWhile(s, g, r)
  {
    KeptMembers(s.pending, Horizon(s));
    LostNow(Swept(s), g, r);
    LostBefore(s, FinishReclaim, g, r);
  }

  /** The exact condition for an object pending under a guard: it is kept as long as the
      guard lives if and only if no attempt under way has a horizon past it. */
  lemma KeptIff(d: set<Thread>, s: State, g: nat, r: Retired)
    requires Inv(d, s) && g in s.guards && s.guards[g].thread in d && r in s.pending && s.guards[g].epoch <= r.epoch
    ensures KeptWhile(s, g, r) <==> (s.scan.Some? ==> Horizon(s) <= r.epoch)
  {
    hide Inv, KeptWhile;
    if s.scan.Some? && Horizon(s) > r.epoch {
      LostToAttempt(s, g, r);
    } else {
      InvAnchors(d, s, g, r.epoch);
      FewerNest(d, s);
      CoveredKept(s, g, r);
    }
  }

  /** The exact condition for an object retired under a guard: it is kept as long as the
      guard lives if and only if a reclaim attempt under way, if any, saw an active thread. */
  lemma RetireeKeptIff(d: set<Thread>, s: State, g: nat)
    requires Inv(d, s) && g in s.guards && s.guards[g].thread in d
    ensures KeptWhile(Retiring(s), g, Retired(s.retired, s.global)) <==> (s.scan.Some? ==> s.scan.value.oldest.Some?)
  {
    hide KeptWhile, Inv;
    InvPlace(d, s, g);
    InvScan(d, s);
    StepInv(d, s, Retire);
    KeptIff(d, Retiring(s), g, Retired(s.retired, s.global));
  }

  /** An object retired at step `j` of a run while guard `g` is live is not dropped before
      `g` ends, whatever any thread does in between, unless it was retired under an attempt
      that saw nobody. */
  lemma RetiredOutlivesGuards(d: set<Thread>, ss: seq<State>, es: seq<Event>, g: nat, j: nat, m: nat)
    requires Run(d, ss, es) && j < |es| && es[j].Retire? && j < m < |ss| && LiveThrough(ss, g, j, m)
    requires g in ss[j].guards && ss[j].guards[g].thread in d
    requires ss[j].scan.Some? ==> ss[j].scan.value.oldest.Some?
    ensures Retired(ss[j].retired, ss[j].global) in ss[m].pending
  {
    hide Next, Enabled, Nests, Threads, Stacks, Counted, Covered;
    var t := ss[j].guards[g].thread;
    RunInv(d, ss, es, j);
    RunInv(d, ss, es, j + 1);
    assert Enabled(ss[j], es[j]) && ss[j + 1] == Next(ss[j], es[j]);
    RetireeCovered(d, ss[j], g);
    NextRetire(ss[j]);
    FewerNest(d, ss[j + 1]);
    forall i | 0 <= i < |es| ensures Nests({t}, ss[i], es[i]) {
      NestsLess(d, ss[i], es[i]);
    }
    PathCovered(t, ss, es, g, j + 1, m, Retired(ss[j].retired, ss[j].global));
    assert Covered(ss[m], g, Retired(ss[j].retired, ss[j].global));
    CoveredPending(ss[m], g, Retired(ss[j].retired, ss[j].global));
  }

  lemma NextRetire(s: State)
    ensures Next(s, Retire) == Retiring(s) && Retiring(s).guards == s.guards
  {
  }

  lemma InvScan(d: set<Thread>, s: State)
    requires Inv(d, s)
    ensures ScanOk(s)
  {
  }

  lemma CoveredPending(s: State, g: nat, r: Retired)
    requires Covered(s, g, r)
    ensures r in s.pending
  {
  }

  lemma RetireeCovered(d: set<Thread>, s: State, g: nat)
    requires Inv(d, s) && g in s.guards && s.guards[g].thread in d && (s.scan.Some? ==> s.scan.value.oldest.Some?)
    ensures Covered(Retiring(s), g, Retired(s.retired, s.global))
  {
    hide Inv, Anchored;
    InvPlace(d, s, g);
    InvScan(d, s);
    StepInv(d, s, Retire);
    var s' := Retiring(s);
    InvAnchors(d, s', g, s.global);
    assert s'.pending[|s.pending|] == Retired(s.retired, s.global);
  }

  /** While a guard is live the global epoch is at most one past what it was at the pin. */
  lemma GuardHoldsEpoch(d: set<Thread>, ss: seq<State>, es: seq<Event>, i: nat, g: nat)
    requires Run(d, ss, es) && i < |ss| && g in ss[i].guards && ss[i].guards[g].thread in d
    ensures ss[i].guards[g].epoch <= ss[i].guards[g].base <= ss[i].global <= ss[i].guards[g].base + 1
  {
    RunInv(d, ss, es, i);
    assert GuardOk(ss[i], ss[i].guards[g]);
  }

  lemma {:induction false} RunGuard(d: set<Thread>, ss: seq<State>, es: seq<Event>, g: nat, j: nat, m: nat)
    requires Run(d, ss, es) && j <= m < |ss| && LiveThrough(ss, g, j, m) && g in ss[j].guards && ss[j].guards[g].thread in d
    ensures g in ss[m].guards && ss[m].guards[g].base == ss[j].guards[g].base && ss[m].guards[g].thread in d
    ensures ss[j].guards[g].base <= ss[j].global
  {
    hide Inv, Next, Enabled, Nests;
    GuardHoldsEpoch(d, ss, es, j, g);
    if m > j {
      RunGuard(d, ss, es, g, j, m - 1);
      RunInv(d, ss, es, m - 1);
      assert Enabled(ss[m - 1], es[m - 1]);
      assert g in ss[m].guards;
      StepGuard(d, ss[m - 1], es[m - 1], g);
    }
  }

  /** Slots freed at step `j` while guard `g` is live, settled or not, are not handed out by
      any release while `g` lives: the entry is still held. */
  lemma FreedOutlivesGuards(d: set<Thread>, ss: seq<State>, es: seq<Event>, g: nat, j: nat, m: nat)
    requires Run(d, ss, es) && j < |es| && es[j].Free? && j < m < |ss| && LiveThrough(ss, g, j, m)
    requires g in ss[j].guards && ss[j].guards[g].thread in d
    ensures Freed(es[j].slots, ss[j].global) in ss[m].quarantine
    decreases m
  {
    hide Inv, GuardOk, Next, Enabled, Nests;
    var f := Freed(es[j].slots, ss[j].global);
    if m == j + 1 {
      assert Enabled(ss[j], es[j]) && ss[j + 1] == Next(ss[j], es[j]);
      FreeEnters(ss[j], es[j].slots);
    } else {
      FreedOutlivesGuards(d, ss, es, g, j, m - 1);
      assert Enabled(ss[m - 1], es[m - 1]) && ss[m] == Next(ss[m - 1], es[m - 1]);
      RunGuard(d, ss, es, g, j, m - 1);
      GuardHoldsEpoch(d, ss, es, m - 1, g);
      StepHolds(ss[m - 1], es[m - 1], f);
    }
  }

  lemma FreeEnters(s: State, slots: seq<Slot>)
    ensures Freed(slots, s.global) in Next(s, Free(slots)).quarantine
  {
    assert Next(s, Free(slots)).quarantine[|s.quarantine|] == Freed(slots, s.global);
  }

  lemma StepHolds(s: State, e: Event, f: Freed)
    requires Enabled(s, e) && f in s.quarantine && s.global <= f.epoch + 1
    ensures f in Next(s, e).quarantine
  {
    HeldMembers(s.quarantine, s.global);
    hide Held, Freeing, Kept, Staying, Oldest;
  }

  /** Nothing retired is lost or dropped twice: retired = reclaimed + pending, always. */
  lemma {:induction false} Conservation(d: set<Thread>, ss: seq<State>, es: seq<Event>, i: nat)
    requires Run(d, ss, es) && i < |ss|
    ensures ss[i].retired == ss[i].reclaimed + |ss[i].pending|
  {
    RunInv(d, ss, es, i);
  }

  lemma {:induction false} OldestNone(ps: seq<Thread>, words: map<Thread, Option<nat>>)
    requires forall t :: t in words ==> words[t].None?
    ensures Oldest(ps, words).None?
  {
    if ps != [] {
      OldestNone(ps[..|ps| - 1], words);
    }
  }

  /** With no guard live, one reclaim attempt drops everything pending. */
  lemma IdleReclaims(s: State)
    requires Inv({}, s) && s.scan.None? && s.guards == map[]
    ensures var t := Swept(Scanned(s)); t.pending == [] && t.reclaimed == s.retired == t.retired
  {
    hide Inv, Oldest, CaughtUp, Staying, Kept, StackOk;
    forall t | t in s.words ensures s.words[t].None? {
      InvStack(s, t);
      NoGuards(s, t);
    }
    PendingOld(s);
    var ps := Staying(s.participants, s.gone);
    OldestNone(ps, s.words);
    NobodySeen(ps, s.words, s.global);
    KeptNone(s.pending, s.global + 1);
  }

  lemma PendingOld(s: State)
    requires Inv({}, s)
    ensures s.retired == s.reclaimed + |s.pending| && forall r :: r in s.pending ==> r.epoch <= s.global
  {
  }

  lemma {:induction false} KeptNone(pending: seq<Retired>, horizon: nat)
    requires forall r :: r in pending ==> r.epoch < horizon
    ensures Kept(pending, horizon) == []
  {
    if pending != [] {
      KeptNone(pending[..|pending| - 1], horizon);
    }
  }

  lemma NoGuards(s: State, t: Thread)
    requires StackOk(s, t, false) && s.guards == map[]
    ensures WordOf(s, t).None?
  {
  }

  // ---------------------------------------------------------------------
  // Where the guarantee ends
  // ---------------------------------------------------------------------

  lemma {:induction false} OldestAtLeast(ps: seq<Thread>, words: map<Thread, Option<nat>>, epoch: nat)
    requires forall i :: 0 <= i < |ps| && ps[i] in words && words[ps[i]].Some? ==> words[ps[i]].value >= epoch
    ensures Oldest(ps, words).Some? ==> Oldest(ps, words).value >= epoch
  {
    if ps != [] {
      OldestAtLeast(ps[..|ps| - 1], words, epoch);
    }
  }

  /** Steps the other threads can still take towards being inactive. */
  ghost function OthersLeft(s: State, t: Thread): nat {
    2 * |s.loaded.Keys - {t}| + |OtherGuards(s, t)|
  }

  ghost function OtherGuards(s: State, t: Thread): set<nat> { set x | x in s.guards && s.guards[x].thread != t }

  lemma PinLeft(s: State, t: Thread, u: Thread)
    requires Enabled(s, PinStore(u)) && u != t
    ensures OthersLeft(Next(s, PinStore(u)), t) < OthersLeft(s, t) && Next(s, PinStore(u)).scan == s.scan
  {
    var s' := Pinned(s, u);
    assert s'.loaded.Keys - {t} == (s.loaded.Keys - {t}) - {u} && u in s.loaded.Keys - {t};
    assert OtherGuards(s', t) <= OtherGuards(s, t) + {s.nextGuard};
    Subset(OtherGuards(s', t), OtherGuards(s, t) + {s.nextGuard});
  }

  lemma UnpinLeft(s: State, t: Thread, u: Thread)
    requires Enabled(s, Unpin(u)) && s.guards[TopOf(s, u)].thread != t
    ensures OthersLeft(Next(s, Unpin(u)), t) < OthersLeft(s, t) && Next(s, Unpin(u)).scan == s.scan
  {
    assert OtherGuards(Unpinned(s, u), t) == OtherGuards(s, t) - {TopOf(s, u)} && TopOf(s, u) in OtherGuards(s, t);
  }

  lemma Subset(a: set<nat>, b: set<nat>)
    requires a <= b
    ensures |a| <= |b|
  {
    assert b == a + (b - a);
  }

  /** An active word past the object protects nothing: the other threads may end their pins,
      and the next attempt drops the object although the guard lives. */
  lemma LaterWordLoses(s: State, g: nat, r: Retired)
    requires Inv({}, s) && g in s.guards && Past(s, g, r)
    ensures !KeptWhile(s, g, r)
    decreases if s.scan.Some? then 1 else 0, OthersLeft(s, s.guards[g].thread)
  {
    hide Inv, KeptWhile, OthersLeft, Past, Next, StackOf, Nests;
    var t := s.guards[g].thread;
    var e: Event;
    if s.scan.Some? {
      e := FinishReclaim;
      OthersStep(s, e, g, r);
      FinishEnds(s);
    } else if u :| u in s.loaded && u != t {
      e := PinStore(u);
      LoadedEnabled(s, u);
      OthersStep(s, e, g, r);
      PinLeft(s, t, u);
    } else if u :| u != t && StackOf(s, u) != [] {
      e := Unpin(u);
      GuardsOwn(s, u);
      OthersStep(s, e, g, r);
      UnpinLeft(s, t, u);
    } else {
      AloneLoses(s, g, r);
      return;
    }
    LaterWordLoses(Next(s, e), g, r);
    LostBefore(s, e, g, r);
  }

  /** The guard's thread publishes an epoch past the object's. */
  ghost predicate Past(s: State, g: nat, r: Retired)
    requires g in s.guards
  {
    WordOf(s, s.guards[g].thread).Some? && WordOf(s, s.guards[g].thread).value > r.epoch
  }

  lemma LoadedEnabled(s: State, u: Thread)
    requires Inv({}, s) && u in s.loaded
    ensures Enabled(s, PinStore(u))
  {
  }

  lemma FinishEnds(s: State)
    requires s.scan.Some?
    ensures Next(s, FinishReclaim).scan.None?
  {
  }

  lemma OthersStep(s: State, e: Event, g: nat, r: Retired)
    requires Inv({}, s) && g in s.guards && Past(s, g, r) && Enabled(s, e)
    requires e != PinStore(s.guards[g].thread) && e != Unpin(s.guards[g].thread)
    ensures Inv({}, Next(s, e)) && Nests({s.guards[g].thread}, s, e)
    ensures g in Next(s, e).guards && Next(s, e).guards[g].thread == s.guards[g].thread && Past(Next(s, e), g, r)
  {
    StepInv({}, s, e);
    OthersLeave(s, e, s.guards[g].thread, g);
    hide Inv, Next, Enabled;
  }

  /** With every other thread inactive, an attempt has the thread's own word for horizon. */
  lemma AloneLoses(s: State, g: nat, r: Retired)
    requires Inv({}, s) && g in s.guards && Past(s, g, r) && s.scan.None?
    requires forall u :: u != s.guards[g].thread ==> StackOf(s, u) == []
    ensures !KeptWhile(s, g, r)
  {
    AloneHorizon(s, g);
    hide KeptWhile, Inv, Kept, Staying, Oldest, Held, Freeing, CaughtUp, StackOf;
    var s' := Scanned(s);
    assert Next(s, BeginReclaim) == s' && s'.guards == s.guards;
    hide Next, Scanned;
    LostToAttempt(s', g, r);
    LostBefore(s, BeginReclaim, g, r);
  }

  lemma AloneHorizon(s: State, g: nat)
    requires Inv({}, s) && g in s.guards && forall u :: u != s.guards[g].thread ==> StackOf(s, u) == []
    ensures Some(Horizon(Scanned(s))) == WordOf(s, s.guards[g].thread)
  {
    var t, ps := s.guards[g].thread, Staying(s.participants, s.gone);
    hide Inv, Staying, Oldest, CaughtUp;
    StayingMembers(s.participants, s.gone);
    InvWord(s, g);
    forall u | u in s.words && s.words[u].Some? ensures u == t {
      InvStack(s, u);
    }
    OldestIsOnly(ps, s.words, t);
  }

  lemma OldestIsOnly(ps: seq<Thread>, words: map<Thread, Option<nat>>, t: Thread)
    requires t in ps && t in words && words[t].Some? && forall u :: u in words && words[u].Some? ==> u == t
    ensures Oldest(ps, words) == words[t]
  {
    OldestAtLeast(ps, words, words[t].value);
    OldestBound(ps, words, t);
  }

  lemma InvWord(s: State, g: nat)
    requires Inv({}, s) && g in s.guards
    ensures var t := s.guards[g].thread;
            t in s.participants && t !in s.gone && t in s.words && s.words[t].Some?
  {
    GuardWord({}, s, g);
  }

  lemma PinInv(s: State, t: Thread)
    requires Inv({}, s) && Enabled(s, PinStore(t))
    ensures Inv({}, Pinned(s, t))
  {
    StepInv({}, s, PinStore(t));
  }

  /** The exact condition for a nested pin: an object pending under the outer guard is kept
      as long as that guard lives if and only if it was before and the published epoch is
      not past it. */
  lemma NestedPinKeepsIff(d: set<Thread>, s: State, t: Thread, g: nat, r: Retired)
    requires Inv(d, s) && t in d && Enabled(s, PinStore(t)) && g in s.guards && s.guards[g].thread == t
    requires r in s.pending && s.guards[g].epoch <= r.epoch
    ensures g in Pinned(s, t).guards
    ensures KeptWhile(Pinned(s, t), g, r) <==> KeptWhile(s, g, r) && s.loaded[t] <= r.epoch
  {
    hide Inv, KeptWhile, Anchored, Kept;
    var p := Pinned(s, t);
    InvPlace(d, s, g);
    FewerNest(d, s);
    KeptIff(d, s, g, r);
    PinInv(s, t);
    InvAnchors(d, s, g, r.epoch);
    if s.loaded[t] > r.epoch {
      LaterWordLoses(p, g, r);
    } else if s.scan.Some? && Horizon(s) > r.epoch {
      LostToAttempt(p, g, r);
    } else {
      PinAnchored(s, t, g, r.epoch);
      CoveredKept(p, g, r);
    }
  }

  /** Retired while the guard was live or since, and still pending. */
  ghost predicate Under(s: State, g: nat, r: Retired)
    requires g in s.guards
  {
    r in s.pending && s.guards[g].epoch <= r.epoch
  }

  /** With no attempt under way, publishing a nested pin leaves everything pending under the
      outer guard protected if and only if nothing was retired under it at an epoch before
      the published one. */
  lemma NestedPinSafeIff(d: set<Thread>, s: State, t: Thread, g: nat)
    requires Inv(d, s) && t in d && Enabled(s, PinStore(t)) && g in s.guards && s.guards[g].thread == t && s.scan.None?
    ensures g in Pinned(s, t).guards
    ensures (forall r :: Under(s, g, r) ==> KeptWhile(Pinned(s, t), g, r)) <==> (forall r :: Under(s, g, r) ==> s.loaded[t] <= r.epoch)
  {
    assert g < s.nextGuard;
    hide Inv, KeptWhile;
    forall r | Under(s, g, r) ensures KeptWhile(Pinned(s, t), g, r) <==> s.loaded[t] <= r.epoch {
      NestedPinKeepsIff(d, s, t, g, r);
      KeptIff(d, s, g, r);
    }
  }

  lemma RunSnoc(d: set<Thread>, ss: seq<State>, es: seq<Event>, e: Event) returns (ss': seq<State>, es': seq<Event>)
    requires Run(d, ss, es) && Enabled(ss[|es|], e) && Nests(d, ss[|es|], e)
    ensures Run(d, ss', es') && |es'| == |es| + 1 && ss'[|es'|] == Next(ss[|es|], e)
  {
    hide Enabled, Next, Nests;
    ss', es' := ss + [Next(ss[|es|], e)], es + [e];
    forall i | 0 <= i < |es'|
      ensures Enabled(ss'[i], es'[i]) && ss'[i + 1] == Next(ss'[i], es'[i]) && Nests(d, ss'[i], es'[i])
    {
      if i < |es| {
        assert es'[i] == es[i] && ss'[i] == ss[i] && ss'[i + 1] == ss[i + 1];
      }
    }
  }

  /** A run in which every pin so far nests reaches a nested pin that loses an object: pin,
      retire, advance once, start a nested pin. */
  lemma NestedPinIsReachable() returns (ss: seq<State>, es: seq<Event>)
    ensures Run({0}, ss, es)
    ensures var s := ss[|es|];
            && s.scan.None? && Enabled(s, PinStore(0)) && 0 in s.guards && s.guards[0].thread == 0
            && Under(s, 0, Retired(0, 1)) && KeptWhile(s, 0, Retired(0, 1))
            && 0 in Pinned(s, 0).guards && !KeptWhile(Pinned(s, 0), 0, Retired(0, 1))
  {
    var a := Init.(participants := [0], words := map[0 := None], stacks := map[0 := []]);
    var guard := Guard(0, 1, None, 1, true);
    var b := a.(words := map[0 := Some(1)], stacks := map[0 := [0]], guards := map[0 := guard], nextGuard := 1);
    var c := b.(pending := [Retired(0, 1)], retired := 1);
    hide KeptWhile;
    ss, es := RunSnoc({0}, [Init], [], Register(0));
    assert ss[1] == a;
    ss, es := RunSnoc({0}, ss, es, PinLoad(0));
    ss, es := RunSnoc({0}, ss, es, PinStore(0));
    assert ss[3] == b;
    ss, es := RunSnoc({0}, ss, es, Retire);
    assert ss[4] == c;
    ss, es := RunSnoc({0}, ss, es, BeginReclaim);
    ReachScan(c);
    assert ss[5] == c.(scan := Some(Scan(Some(1), true)));
    ss, es := RunSnoc({0}, ss, es, FinishReclaim);
    ReachSweep();
    assert ss[6] == c.(global := 2);
    ss, es := RunSnoc({0}, ss, es, PinLoad(0));
    assert ss[7] == c.(global := 2, loaded := map[0 := 2]);
    RunInv({0}, ss, es, 7);
    KeptIff({0}, ss[7], 0, Retired(0, 1));
    NestedPinKeepsIff({0}, ss[7], 0, 0, Retired(0, 1));
  }

  lemma ReachScan(c: State)
    requires c.participants == [0] && c.gone == {} && c.words == map[0 := Some(1)] && c.global == 1
    ensures Scanned(c) == c.(scan := Some(Scan(Some(1), true)))
  {
    hide Staying, Oldest;
    OneThread(c.words);
    assert CaughtUp([0], c.words, 1);
  }

  lemma OneThread(words: map<Thread, Option<nat>>)
    ensures Staying([0], {}) == [0]
    ensures Oldest([0], words) == if 0 in words then words[0] else None
  {
    assert [0][..0] == [];
  }

  lemma ReachSweep()
    ensures Kept([Retired(0, 1)], 1) == [Retired(0, 1)]
  {
    assert [Retired(0, 1)][..0] == [];
  }

  /** A run reaches a guard that does not protect what is retired next: a pin loads the
      epoch, an attempt sees nobody, the pin is published. */
  lemma PinDuringReclaimIsReachable() returns (ss: seq<State>, es: seq<Event>)
    ensures Run({0}, ss, es)
    ensures var s := ss[|es|];
            0 in s.guards && !KeptWhile(Retiring(s), 0, Retired(s.retired, s.global))
  {
    var a := Init.(participants := [0], words := map[0 := None], stacks := map[0 := []]);
    hide KeptWhile;
    ss, es := RunSnoc({0}, [Init], [], Register(0));
    assert ss[1] == a;
    ss, es := RunSnoc({0}, ss, es, PinLoad(0));
    var b := a.(loaded := map[0 := 1]);
    assert ss[2] == b;
    ss, es := RunSnoc({0}, ss, es, BeginReclaim);
    OneThread(b.words);
    assert ss[3].scan.value.oldest.None?;
    ss, es := RunSnoc({0}, ss, es, PinStore(0));
    assert ss[4].scan.value.oldest.None?;
    RunInv({0}, ss, es, 4);
    RetireeKeptIff({0}, ss[4], 0);
  }

  // ---------------------------------------------------------------------
  // The manager and the quarantine, updated in place
  // ---------------------------------------------------------------------

  class EpochManager {
    var globalEpoch: nat
    var participants: seq<Thread>
    var gone: set<Thread>
    var words: map<Thread, Option<nat>>
    var loaded: map<Thread, nat>
    var queue: seq<Retired>
    var retiredTotal: nat
    var reclaimedTotal: nat
    var quarantine: seq<Freed>
    var reusable: seq<Slot>
    var scan: Option<Scan>
    ghost var model: State

    ghost predicate Valid()
      reads this
    {
      && model.global == globalEpoch && model.participants == participants && model.gone == gone
      && model.words == words && model.loaded == loaded && model.pending == queue
      && model.retired == retiredTotal && model.reclaimed == reclaimedTotal
      && model.quarantine == quarantine && model.reusable == reusable && model.scan == scan
    }

    constructor ()
      ensures Valid() && model == Init
    {
      globalEpoch, participants, gone, words, loaded := 1, [], {}, map[], map[];
      queue, retiredTotal, reclaimedTotal := [], 0, 0;
      quarantine, reusable, scan := [], [], None;
      model := Init;
    }

    method RegisterThread(t: Thread)
      requires Valid() && Enabled(model, Register(t))
      modifies this
      ensures Valid() && model == Next(old(model), Register(t))
    {
      participants, words := participants + [t], words[t := None];
      model := Next(model, Register(t));
    }

    method LoadEpoch(t: Thread)
      requires Valid() && Enabled(model, PinLoad(t))
      modifies this
      ensures Valid() && model == Next(old(model), PinLoad(t))
    {
      loaded := loaded[t := globalEpoch];
      model := Next(model, PinLoad(t));
    }

    /** Publishes the loaded epoch and returns the word the guard restores. */
    method PublishEpoch(t: Thread) returns (prev: Option<nat>)
      requires Valid() && Enabled(model, PinStore(t))
      modifies this
      ensures Valid() && model == Next(old(model), PinStore(t))
      ensures old(model).nextGuard in model.guards && model.guards[old(model).nextGuard].prev == prev
    {
      prev := words[t];
      words, loaded := words[t := Some(loaded[t])], loaded - {t};
      model := Next(model, PinStore(t));
    }

    /** Dropping a guard puts back the word it replaced. */
    method DropGuard(t: Thread, prev: Option<nat>)
      requires Valid() && Enabled(model, Unpin(t)) && model.guards[TopOf(model, t)].prev == prev
      modifies this
      ensures Valid() && model == Next(old(model), Unpin(t))
    {
      words := words[t := prev];
      model := Next(model, Unpin(t));
    }

    method RetireObject()
      requires Valid()
      modifies this
      ensures Valid() && model == Next(old(model), Retire)
    {
      queue, retiredTotal := queue + [Retired(retiredTotal, globalEpoch)], retiredTotal + 1;
      model := Next(model, Retire);
    }

    /** First half of a reclaim attempt: forget exited threads, read every word. */
    method ReadParticipants()
      requires Valid() && Enabled(model, BeginReclaim)
      modifies this
      ensures Valid() && model == Next(old(model), BeginReclaim)
    {
      hide Kept, Held, Freeing, Oldest, Staying, Pinned, Unpinned, Swept;
      var staying := StillHere(participants, gone);
      var oldest, caughtUp := ReadWords(staying, words, globalEpoch);
      participants, scan := staying, Some(Scan(oldest, caughtUp));
      model := Next(model, BeginReclaim);
    }

    static method StillHere(ps: seq<Thread>, gone: set<Thread>) returns (staying: seq<Thread>)
      ensures staying == Staying(ps, gone)
    {
      staying := [];
      for i := 0 to |ps|
        invariant staying == Staying(ps[..i], gone)
      {
        assert ps[..i + 1][..i] == ps[..i];
        if ps[i] !in gone {
          staying := staying + [ps[i]];
        }
      }
      assert ps[..|ps|] == ps;
    }

    static method ReadWords(ps: seq<Thread>, words: map<Thread, Option<nat>>, global: nat)
        returns (oldest: Option<nat>, caughtUp: bool)
      ensures oldest == Oldest(ps, words) && caughtUp == CaughtUp(ps, words, global)
    {
      oldest, caughtUp := None, true;
      for i := 0 to |ps|
        invariant oldest == Oldest(ps[..i], words) && caughtUp == CaughtUp(ps[..i], words, global)
      {
        assert ps[..i + 1][..i] == ps[..i];
        var e := if ps[i] in words then words[ps[i]] else None;
        if e.Some? {
          oldest := Some(if oldest.Some? && oldest.value < e.value then oldest.value else e.value);
          if e.value < global {
            caughtUp := false;
            assert ps[..i + 1][i] == ps[i];
          }
        }
      }
      assert ps[..|ps|] == ps;
    }

    /** Second half: advance when everyone was current, drop what is behind the horizon. */
    method DropRetired() returns (dropped: nat)
      requires Valid() && Enabled(model, FinishReclaim)
      modifies this
      ensures Valid() && model == Next(old(model), FinishReclaim)
      ensures dropped == old(|queue|) - |queue|
    {
      hide Kept, Held, Freeing, Oldest, Staying, Pinned, Unpinned, Scanned;
      var seen := scan.value;
      if seen.caughtUp {
        globalEpoch := globalEpoch + 1;
      }
      var horizon := if seen.oldest.Some? then seen.oldest.value else globalEpoch;
      var kept := Retain(queue, horizon);
      dropped := |queue| - |kept|;
      queue, reclaimedTotal, scan := kept, reclaimedTotal + dropped, None;
      model := Next(model, FinishReclaim);
    }

    static method Retain(queue: seq<Retired>, horizon: nat) returns (kept: seq<Retired>)
      ensures kept == Kept(queue, horizon)
    {
      kept := [];
      for i := 0 to |queue|
        invariant kept == Kept(queue[..i], horizon)
      {
        assert queue[..i + 1][..i] == queue[..i];
        if queue[i].epoch >= horizon {
          kept := kept + [queue[i]];
        }
      }
      assert queue[..|queue|] == queue;
    }

    method FreeSlots(slots: seq<Slot>)
      requires Valid()
      modifies this
      ensures Valid() && model == Next(old(model), Free(slots))
    {
      quarantine := quarantine + [Freed(slots, globalEpoch)];
      model := Next(model, Free(slots));
    }

    /** Entries two epochs old leave the quarantine, in order; the others stay, in order. */
    method ReleaseSlots()
      requires Valid()
      modifies this
      ensures Valid() && model == Next(old(model), Release)
    {
      var held, freed := Expire(quarantine, globalEpoch);
      quarantine, reusable := held, reusable + freed;
      model := Next(model, Release);
    }

    /** Removes expired entries one at a time. */
    static method Expire(entries: seq<Freed>, global: nat) returns (held: seq<Freed>, freed: seq<Slot>)
      ensures held == Held(entries, global) && freed == Freeing(entries, global)
    {
      HeldNone(global);
      hide Held, Freeing;
      held, freed := entries, [];
      assert entries[..0] == [];
      var i := 0;
      ghost var n := 0;
      while i < |held|
        invariant n <= |entries| && i == |Held(entries[..n], global)| && held == Held(entries[..n], global) + entries[n..]
        invariant freed == Freeing(entries[..n], global)
        decreases |held| - i
      {
        HeldNext(entries, n, global);
        assert held[i] == entries[n] && entries[n..] == [entries[n]] + entries[n + 1..];
        if held[i].epoch + 1 < global {
          freed := freed + held[i].slots;
          held := held[..i] + held[i + 1..];
        } else {
          i := i + 1;
        }
        n := n + 1;
      }
      assert entries[..n] == entries;
    }
  }
}
