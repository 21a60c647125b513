/**
 One node's optimistic latch and its published body, at the grain of the atomic operations
 any number of threads perform on them. The word is 64 bits wide: bit 0 is the lock, the
 rest a version that wraps.
 */
module Latch {
  import opened Bytes

  const WORD: nat := 0x1_0000_0000_0000_0000
  const CYCLES: nat := 0x8000_0000_0000_0000

  type Body = seq<Key>
  type Thread = nat

  datatype Phase =
    | Idle
    | Trying(seen: nat)                          // a writer that loaded the word
    | Holding(owned: Option<Body>)               // holds the latch, with its private copy
    | Swapped                                    // published its copy, still holds the latch
    | Snapshot(version: nat)                     // a reader that saw the word unlocked
    | HasRead(version: nat, body: Body)          // and then read the body
    | Done(valid: bool, body: Body)              // and then checked the word again

  datatype State = State(
    word: nat,
    body: Body,
    phases: map<Thread, Phase>,
    cycles: nat,                // unlocks so far
    owner: Option<Thread>
  )

  function PhaseOf(s: State, t: Thread): Phase { if t in s.phases then s.phases[t] else Idle }

  function Init(body: Body): State { State(0, body, map[], 0, None) }

  datatype Event =
    | Load(t: Thread)                    // writer: load the word
    | Exchange(t: Thread, spurious: bool) // writer: compare-exchange, which may fail spuriously
    | Reload(t: Thread)                  // writer: the word was locked, load again
    | Edit(t: Thread, body: Body)
    | Swap(t: Thread)
    | Unlock(t: Thread)
    | Observe(t: Thread)
    | Read(t: Thread)
    | Check(t: Thread)
    | Finish(t: Thread)

  predicate Locked(word: nat) { word % 2 == 1 }

  function Goes(s: State, t: Thread, p: Phase): State { s.(phases := s.phases[t := p]) }

  predicate Enabled(s: State, e: Event) {
    match e
    case Load(t) => PhaseOf(s, t).Idle?
    case Exchange(t, _) => PhaseOf(s, t).Trying? && !Locked(PhaseOf(s, t).seen)
    case Reload(t) => PhaseOf(s, t).Trying? && Locked(PhaseOf(s, t).seen)
    case Edit(t, _) => PhaseOf(s, t).Holding?
    case Swap(t) => PhaseOf(s, t).Holding? && PhaseOf(s, t).owned.Some?
    case Unlock(t) => PhaseOf(s, t).Swapped? || PhaseOf(s, t) == Holding(None)
    case Observe(t) => PhaseOf(s, t).Idle?
    case Read(t) => PhaseOf(s, t).Snapshot?
    case Check(t) => PhaseOf(s, t).HasRead?
    case Finish(t) => PhaseOf(s, t).Done?
  }

  function Next(s: State, e: Event): State
    requires Enabled(s, e)
  {
    match e
    case Load(t) => Goes(s, t, Trying(s.word))
    case Exchange(t, spurious) =>
      if s.word == PhaseOf(s, t).seen && !spurious
      then Goes(s, t, Holding(None)).(word := s.word + 1, owner := Some(t))
      else Goes(s, t, Trying(s.word))
    case Reload(t) => Goes(s, t, Trying(s.word))
    case Edit(t, body) => Goes(s, t, Holding(Some(body)))
    case Swap(t) => Goes(s, t, Swapped).(body := PhaseOf(s, t).owned.value)
    case Unlock(t) => Goes(s, t, Idle).(word := (s.word + 1) % WORD, cycles := s.cycles + 1, owner := None)
    case Observe(t) => if Locked(s.word) then s else Goes(s, t, Snapshot(s.word))
    case Read(t) => Goes(s, t, HasRead(PhaseOf(s, t).version, s.body))
    case Check(t) => Goes(s, t, Done(s.word == PhaseOf(s, t).version, PhaseOf(s, t).body))
    case Finish(t) => Goes(s, t, Idle)
  }

  ghost predicate Run(ss: seq<State>, es: seq<Event>) {
    && |ss| == |es| + 1 && ss[0] == Init(ss[0].body)
    && forall i :: 0 <= i < |es| ==> Enabled(ss[i], es[i]) && ss[i + 1] == Next(ss[i], es[i])
  }

  predicate Holds(s: State, t: Thread) { PhaseOf(s, t).Holding? || PhaseOf(s, t).Swapped? }

  /** The word counts unlock cycles modulo 2^63 above the lock bit, and the lock bit is set
      exactly when the one owner holds the latch. */
  ghost predicate Inv(s: State) {
    && s.word == (2 * s.cycles) % WORD + (if s.owner.Some? then 1 else 0)
    && (forall t: Thread :: Holds(s, t) <==> s.owner == Some(t))
  }

  lemma EvenWord(cycles: nat)
    ensures ((2 * cycles) % WORD) % 2 == 0 && (2 * cycles) % WORD + 1 < WORD
    ensures ((2 * cycles) % WORD + 2) % WORD == (2 * (cycles + 1)) % WORD
  {
    var k := (2 * cycles) / WORD;
    assert 2 * cycles == WORD * k + (2 * cycles) % WORD;
    assert WORD == 2 * CYCLES;
    assert (2 * cycles) % WORD == 2 * (cycles - CYCLES * k);
    var r := (2 * cycles) % WORD;
    if r + 2 < WORD {
      Unique(2 * (cycles + 1), k, r + 2);
    } else {
      Unique(2 * (cycles + 1), k + 1, 0);
    }
  }

  lemma Unique(n: nat, k: nat, r: nat)
    requires n == WORD * k + r && r < WORD
    ensures n % WORD == r
  {
    assert n / WORD == k;
  }

  /** Every step by any thread keeps mutual exclusion and the version count. */
  lemma StepInv(s: State, e: Event)
    requires Inv(s) && Enabled(s, e)
    ensures Inv(Next(s, e))
  {
    EvenWord(s.cycles);
    var s' := Next(s, e);
    assert forall u: Thread :: u != e.t ==> PhaseOf(s', u) == PhaseOf(s, u);
    assert Holds(s, e.t) <==> s.owner == Some(e.t);
  }

  lemma {:induction false} RunInv(ss: seq<State>, es: seq<Event>, i: nat)
    requires Run(ss, es) && i < |ss|
    ensures Inv(ss[i])
  {
    if i > 0 {
      RunInv(ss, es, i - 1);
      assert Enabled(ss[i - 1], es[i - 1]) && ss[i] == Next(ss[i - 1], es[i - 1]);
      StepInv(ss[i - 1], es[i - 1]);
    }
  }

  /** At most one thread holds the latch, in every state of every run. */
  lemma MutualExclusion(ss: seq<State>, es: seq<Event>, i: nat, t: Thread, u: Thread)
    requires Run(ss, es) && i < |ss| && Holds(ss[i], t) && Holds(ss[i], u)
    ensures t == u
  {
    RunInv(ss, es, i);
  }

  /** Only an unlock counts a cycle, and the body changes only while the latch is held. */
  lemma StepBody(s: State, e: Event)
    requires Inv(s) && Enabled(s, e)
    ensures s.cycles <= Next(s, e).cycles <= s.cycles + 1
    ensures Next(s, e).cycles > s.cycles <==> e.Unlock?
    ensures s.owner.None? ==> Next(s, e).body == s.body && Next(s, e).cycles == s.cycles
    ensures s.owner.Some? && Next(s, e).cycles == s.cycles ==> Next(s, e).owner == s.owner
  {
    assert Holds(s, e.t) <==> s.owner == Some(e.t);
    EvenWord(s.cycles);
  }

  lemma {:induction false} RunCycles(ss: seq<State>, es: seq<Event>, i: nat, j: nat)
    requires Run(ss, es) && i <= j < |ss|
    ensures ss[i].cycles <= ss[j].cycles
  {
    if i < j {
      RunCycles(ss, es, i, j - 1);
      RunInv(ss, es, j - 1);
      assert Enabled(ss[j - 1], es[j - 1]) && ss[j] == Next(ss[j - 1], es[j - 1]);
      StepBody(ss[j - 1], es[j - 1]);
    }
  }

  /** Between two unlocked states of the same cycle nobody held the latch. */
  lemma {:induction false} QuietInterval(ss: seq<State>, es: seq<Event>, i: nat, k: nat, m: nat)
    requires Run(ss, es) && i <= k <= m < |ss|
    requires ss[m].owner.None? && ss[i].cycles == ss[m].cycles
    ensures ss[k].owner.None? && ss[k].body == ss[m].body && ss[k].word == ss[m].word && ss[k].cycles == ss[m].cycles
    decreases m - k
  {
    RunCycles(ss, es, i, k);
    RunCycles(ss, es, k, m);
    RunInv(ss, es, k);
    RunInv(ss, es, m);
    if k < m {
      QuietInterval(ss, es, i, k + 1, m);
      assert Enabled(ss[k], es[k]) && ss[k + 1] == Next(ss[k], es[k]);
      StepBody(ss[k], es[k]);
    }
  }

  /** Equal even words mean equal cycle counts when fewer than 2^63 unlocks lie between. */
  lemma SameVersion(a: nat, b: nat)
    requires a <= b
    ensures (2 * a) % WORD == (2 * b) % WORD <==> (b - a) % CYCLES == 0
  {
    var d := b - a;
    var qa, ra := (2 * a) / WORD, (2 * a) % WORD;
    assert 2 * a == WORD * qa + ra;
    assert WORD == 2 * CYCLES;
    if d % CYCLES == 0 {
      var k := d / CYCLES;
      assert d == CYCLES * k;
      assert 2 * b == WORD * (qa + k) + ra;
      Unique(2 * b, qa + k, ra);
    } else if (2 * b) % WORD == ra {
      var qb := (2 * b) / WORD;
      assert 2 * b == WORD * qb + ra;
      assert d == CYCLES * (qb - qa);
      MultipleOf(d, qb - qa);
      assert false;
    }
  }

  lemma MultipleOf(d: nat, k: int)
    requires d == CYCLES * k
    ensures d % CYCLES == 0
  {
  }

  /** A reader that observed the word at state `i` validates at state `m` exactly when the
      latch is free at `m` and a multiple of 2^63 unlocks happened since. */
  lemma ValidateExactly(ss: seq<State>, es: seq<Event>, i: nat, m: nat)
    requires Run(ss, es) && i <= m < |ss| && !Locked(ss[i].word)
    ensures ss[m].word == ss[i].word <==> ss[m].owner.None? && (ss[m].cycles - ss[i].cycles) % CYCLES == 0
  {
    RunInv(ss, es, i);
    RunInv(ss, es, m);
    RunCycles(ss, es, i, m);
    EvenWord(ss[i].cycles);
    EvenWord(ss[m].cycles);
    SameVersion(ss[i].cycles, ss[m].cycles);
  }

  /** A reader whose check succeeds read the one body that was published for the whole
      interval since its snapshot, if fewer than 2^63 unlocks lie between. */
  lemma ValidatedReadIsStable(ss: seq<State>, es: seq<Event>, t: Thread, i: nat, j: nat, m: nat, k: nat)
    requires Run(ss, es) && i < j < m < |es| && i < k <= m
    requires es[i] == Observe(t) && PhaseOf(ss[i + 1], t).Snapshot?
    requires es[j] == Read(t) && es[m] == Check(t)
    requires forall x :: i < x < m && x != j ==> es[x].t != t
    requires ss[m].cycles - ss[i].cycles < CYCLES && PhaseOf(ss[m + 1], t) == Done(true, PhaseOf(ss[m], t).body)
    ensures PhaseOf(ss[m + 1], t).Done? && ss[k].body == PhaseOf(ss[m + 1], t).body && ss[k].word == ss[i].word
    ensures ss[k].owner.None?
  {
    StaysSame(ss, es, t, i + 1, j);
    StaysSame(ss, es, t, j + 1, m);
    assert Enabled(ss[i], es[i]) && ss[i + 1] == Next(ss[i], es[i]);
    assert Enabled(ss[j], es[j]) && ss[j + 1] == Next(ss[j], es[j]);
    assert Enabled(ss[m], es[m]) && ss[m + 1] == Next(ss[m], es[m]);
    assert PhaseOf(ss[m], t) == HasRead(ss[i].word, ss[j].body) && ss[m].word == ss[i].word;
    RunCycles(ss, es, i, m);
    ValidateExactly(ss, es, i, m);
    assert ss[m].cycles == ss[i].cycles;
    QuietInterval(ss, es, i, k, m);
    QuietInterval(ss, es, i, j, m);
  }

  lemma {:induction false} StaysSame(ss: seq<State>, es: seq<Event>, t: Thread, i: nat, j: nat)
    requires Run(ss, es) && i <= j < |ss| && forall x :: i <= x < j ==> es[x].t != t
    ensures PhaseOf(ss[j], t) == PhaseOf(ss[i], t)
  {
    if i < j {
      StaysSame(ss, es, t, i, j - 1);
      assert Enabled(ss[j - 1], es[j - 1]) && ss[j] == Next(ss[j - 1], es[j - 1]);
    }
  }

  /** Each unlock publishes an even word that differs from every one of the last 2^63 - 1
      unlocked words. */
  lemma FreshVersion(ss: seq<State>, es: seq<Event>, i: nat, m: nat)
    requires Run(ss, es) && i <= m < |es| && es[m].Unlock? && !Locked(ss[i].word)
    requires ss[m].cycles - ss[i].cycles < CYCLES - 1
    ensures !Locked(ss[m + 1].word) && ss[m + 1].word != ss[i].word
  {
    RunInv(ss, es, m);
    RunInv(ss, es, m + 1);
    assert Enabled(ss[m], es[m]) && ss[m + 1] == Next(ss[m], es[m]);
    EvenWord(ss[m + 1].cycles);
    RunCycles(ss, es, i, m);
    ValidateExactly(ss, es, i, m + 1);
  }

  /** The latch word itself. */
  class HybridLatch {
    var state: nat

    ghost predicate Valid()
      reads this
    {
      state < WORD
    }

    constructor ()
      ensures Valid() && state == 0
    {
      state := 0;
    }

    method Optimistic() returns (version: Option<nat>)
      requires Valid()
      ensures version == if Locked(state) then None else Some(state)
    {
      version := if state % 2 != 0 then None else Some(state);
    }

    method Validate(version: nat) returns (same: bool)
      requires Valid()
      ensures same <==> state == version
    {
      same := state == version;
    }

    /** One round of the acquiring loop, from the word last loaded: take the latch when that
        word is unlocked and still current, else go on with the current word. */
    method TryLock(seen: nat) returns (got: bool, next: nat)
      requires Valid()
      modifies this
      ensures Valid() && got == (!Locked(seen) && old(state) == seen)
      ensures state == if got then old(state) + 1 else old(state)
      ensures !got ==> next == old(state)
    {
      got, next := false, state;
      if seen % 2 == 0 && state == seen {
        assert WORD % 2 == 0;
        state, got := state + 1, true;
      }
    }

    method UnlockExclusive()
      requires Valid() && Locked(state)
      modifies this
      ensures Valid() && !Locked(state) && state == (old(state) + 1) % WORD
    {
      assert WORD % 2 == 0;
      state := (state + 1) % WORD;
    }
  }
}
