/**
 Sharded staging of the write-ahead log: appenders reserve offsets and stage bytes into
 shard queues, the syncer drains them in offset order into the file and syncs. Steps of
 appenders and of a syncer round interleave freely.
 */
module WalStage {
  import opened Bytes

  datatype Segment = Segment(start: nat, data: seq<Byte>)
  datatype Popped = Popped(shard: nat, seg: Segment)

  /** A syncer round: where it has drained to, how far it may go, what it popped, and
      whether that is in the file. */
  datatype Round = Round(frontier: nat, reserved: nat, batch: seq<Popped>, filed: bool)

  datatype State = State(
    base: nat,
    written: nat,
    fileWritten: nat,
    durable: nat,
    file: seq<Byte>,             // file bytes from `base`
    disk: seq<Byte>,             // the prefix of them known to be synced
    shards: seq<seq<Segment>>,
    staging: Option<Segment>,    // reserved under the sequencer lock, not yet staged
    round: Option<Round>,
    log: seq<Segment>,           // every reservation, in order
    home: seq<nat>,              // the shard each staged reservation went to
    filed: nat                   // how many reservations are in the file
  )

  function Init(base: nat, n: nat): State
    requires n > 0
  {
    State(base, base, base, base, [], [], seq(n, _ => []), None, None, [], [], 0)
  }

  datatype Event =
    | Reserve(data: seq<Byte>)
    | Stage(shard: nat)
    | Begin
    | Pop(shard: nat)
    | Quit
    | Write(ok: bool)
    | Sync(ok: bool)

  function Concat(log: seq<Segment>): seq<Byte> {
    if log == [] then [] else Concat(log[..|log| - 1]) + log[|log| - 1].data
  }

  function Coalesce(batch: seq<Popped>): seq<Byte> {
    if batch == [] then [] else Coalesce(batch[..|batch| - 1]) + batch[|batch| - 1].seg.data
  }

  /** Popped segments go back to the fronts of their queues, last popped first. */
  function Requeue(shards: seq<seq<Segment>>, batch: seq<Popped>): (r: seq<seq<Segment>>)
    requires forall j :: 0 <= j < |batch| ==> batch[j].shard < |shards|
    ensures |r| == |shards|
    decreases |batch|
  {
    if batch == [] then shards
    else
      var last := batch[|batch| - 1];
      Requeue(shards[last.shard := [last.seg] + shards[last.shard]], batch[..|batch| - 1])
  }

  predicate Enabled(s: State, e: Event) {
    match e
    case Reserve(data) => s.staging.None? && data != []
    case Stage(i) => s.staging.Some? && i < |s.shards|
    case Begin => s.round.None?
    case Pop(i) =>
      && s.round.Some? && !s.round.value.filed && s.round.value.frontier < s.round.value.reserved
      && i < |s.shards| && s.shards[i] != [] && s.shards[i][0].start == s.round.value.frontier
    case Quit => s.round.Some? && s.round.value.batch == [] && !s.round.value.filed
    case Write(_) =>
      && s.round.Some? && s.round.value.batch != [] && !s.round.value.filed
      && forall j :: 0 <= j < |s.round.value.batch| ==> s.round.value.batch[j].shard < |s.shards|
    case Sync(_) => s.round.Some? && s.round.value.filed
  }

  function Next(s: State, e: Event): State
    requires Enabled(s, e)
  {
    match e
    case Reserve(data) =>
      var seg := Segment(s.written, data);
      s.(staging := Some(seg), written := s.written + |data|, log := s.log + [seg])
    case Stage(i) =>
      s.(staging := None, shards := s.shards[i := s.shards[i] + [s.staging.value]], home := s.home + [i])
    case Begin => s.(round := Some(Round(s.durable, s.written, [], false)))
    case Pop(i) =>
      var r := s.round.value;
      var seg := s.shards[i][0];
      s.(shards := s.shards[i := s.shards[i][1..]],
         round := Some(r.(frontier := r.frontier + |seg.data|, batch := r.batch + [Popped(i, seg)])))
    case Quit => s.(round := None)
    case Write(ok) =>
      var r := s.round.value;
      if ok
      then s.(file := s.file + Coalesce(r.batch), fileWritten := r.frontier, round := Some(r.(filed := true)), filed := s.filed + |r.batch|)
      else s.(shards := Requeue(s.shards, r.batch), round := None)
    case Sync(ok) =>
      var r := s.round.value;
      if ok
      then s.(disk := s.file, durable := if r.frontier > s.durable then r.frontier else s.durable, round := None)
      else s.(round := None)
  }

  ghost predicate Run(ss: seq<State>, es: seq<Event>) {
    && |ss| == |es| + 1 && |ss[0].shards| > 0 && ss[0] == Init(ss[0].base, |ss[0].shards|)
    && forall i :: 0 <= i < |es| ==> Enabled(ss[i], es[i]) && ss[i + 1] == Next(ss[i], es[i])
  }

  // ---------------------------------------------------------------------
  // Queues as slices of the reservation order
  // ---------------------------------------------------------------------

  /** The reservations from `lo` on that were staged into shard `i`, in order. */
  ghost function Queue(log: seq<Segment>, home: seq<nat>, lo: nat, i: nat): seq<Segment>
    requires lo <= |home| <= |log|
    decreases |home| - lo
  {
    if lo == |home| then []
    else (if home[lo] == i then [log[lo]] else []) + Queue(log, home, lo + 1, i)
  }

  ghost function StartAt(base: nat, log: seq<Segment>, k: nat): nat
    requires k <= |log|
  {
    base + |Concat(log[..k])|
  }

  /** How many reservations have left the queues. */
  ghost function Drained(s: State): nat {
    s.filed + if s.round.Some? && !s.round.value.filed then |s.round.value.batch| else 0
  }

  /** Reservations tile the log from `base`, none empty. */
  ghost predicate Tiles(base: nat, log: seq<Segment>) {
    forall k :: 0 <= k < |log| ==> log[k].data != [] && log[k].start == StartAt(base, log, k)
  }

  ghost predicate Staged(s: State) {
    && |s.log| == |s.home| + (if s.staging.Some? then 1 else 0)
    && (s.staging.Some? ==> s.staging.value == s.log[|s.home|])
    && s.written == s.base + |Concat(s.log)|
    && forall k :: 0 <= k < |s.home| ==> s.home[k] < |s.shards|
  }

  ghost predicate Queued(s: State)
    requires Staged(s)
  {
    Drained(s) <= |s.home| && forall i :: 0 <= i < |s.shards| ==> s.shards[i] == Queue(s.log, s.home, Drained(s), i)
  }

  ghost predicate Filed(s: State)
    requires s.filed <= |s.log|
  {
    && s.file == Concat(s.log[..s.filed]) && s.fileWritten == s.base + |s.file|
    && s.base <= s.durable <= s.fileWritten
    && |s.disk| == s.durable - s.base && s.disk <= s.file
  }

  /** A round that starts where the file ends drains the next reservations in order; one that
      starts behind it, after a failed sync, finds nothing. */
  ghost predicate RoundOk(s: State)
    requires Staged(s) && Drained(s) <= |s.home|
  {
    s.round.Some? ==>
      var r := s.round.value;
      && r.reserved <= s.written
      && (r.filed ==> r.frontier == s.fileWritten)
      && (!r.filed ==>
            && (forall j :: 0 <= j < |r.batch| ==> r.batch[j] == Popped(s.home[s.filed + j], s.log[s.filed + j]))
            && (if s.durable == s.fileWritten then r.frontier == StartAt(s.base, s.log, Drained(s)) else r.batch == [] && r.frontier == s.durable))
  }

  ghost predicate Inv(s: State) {
    Tiles(s.base, s.log) && Staged(s) && Queued(s) && Filed(s) && RoundOk(s)
  }

  // ---------------------------------------------------------------------
  // Facts about concatenation and queues
  // ---------------------------------------------------------------------

  lemma ConcatNext(log: seq<Segment>, k: nat)
    requires k < |log|
    ensures Concat(log[..k + 1]) == Concat(log[..k]) + log[k].data
  {
    assert log[..k + 1][..k] == log[..k];
  }

  lemma ConcatSnoc(log: seq<Segment>, x: Segment)
    ensures Concat(log + [x]) == Concat(log) + x.data
  {
    assert (log + [x])[..|log|] == log;
  }

  lemma {:induction false} ConcatMono(log: seq<Segment>, j: nat, k: nat)
    requires j <= k <= |log|
    ensures Concat(log[..j]) <= Concat(log[..k])
  {
    if j < k {
      ConcatMono(log, j, k - 1);
      ConcatNext(log, k - 1);
    }
  }

  lemma {:induction false} QueuePush(log: seq<Segment>, home: seq<nat>, lo: nat, i: nat, x: Segment, h: nat)
    requires lo <= |home| && (|log| == |home| || (|log| == |home| + 1 && log[|home|] == x))
    ensures var log' := if |log| == |home| then log + [x] else log;
            Queue(log', home + [h], lo, i) == Queue(log, home, lo, i) + if h == i then [x] else []
    decreases |home| - lo
  {
    if lo < |home| {
      QueuePush(log, home, lo + 1, i, x, h);
    } else {
      var log' := if |log| == |home| then log + [x] else log;
      assert Queue(log', home + [h], lo + 1, i) == [];
    }
  }

  lemma {:induction false} QueueFrame(log: seq<Segment>, log': seq<Segment>, home: seq<nat>, lo: nat, i: nat)
    requires lo <= |home| <= |log| && log <= log'
    ensures Queue(log', home, lo, i) == Queue(log, home, lo, i)
    decreases |home| - lo
  {
    if lo < |home| {
      QueueFrame(log, log', home, lo + 1, i);
    }
  }

  ghost predicate From(q: seq<Segment>, start: nat) { forall j :: 0 <= j < |q| ==> q[j].start >= start }

  ghost predicate Sorted(q: seq<Segment>) { forall j, k :: 0 <= j < k < |q| ==> q[j].start < q[k].start }

  lemma FromCons(x: Segment, q: seq<Segment>, start: nat)
    requires From(q, start) && x.start < start && Sorted(q)
    ensures From([x] + q, x.start) && Sorted([x] + q)
  {
  }

  /** A queue is sorted and starts no earlier than the first undrained reservation. */
  lemma {:induction false} QueueSorted(s: State, lo: nat, i: nat)
    requires Tiles(s.base, s.log) && lo <= |s.home| <= |s.log|
    ensures From(Queue(s.log, s.home, lo, i), StartAt(s.base, s.log, lo)) && Sorted(Queue(s.log, s.home, lo, i))
    decreases |s.home| - lo
  {
    if lo < |s.home| {
      QueueSorted(s, lo + 1, i);
      ConcatNext(s.log, lo);
      var rest := Queue(s.log, s.home, lo + 1, i);
      assert s.log[lo].start == StartAt(s.base, s.log, lo) < StartAt(s.base, s.log, lo + 1);
      FromCons(s.log[lo], rest, StartAt(s.base, s.log, lo + 1));
    }
  }

  /** A queue fronts the frontier exactly when the next reservation was staged into it. */
  lemma FrontIsNext(s: State, lo: nat, i: nat)
    requires Tiles(s.base, s.log) && lo <= |s.home| <= |s.log|
    ensures var q := Queue(s.log, s.home, lo, i);
            q != [] && q[0].start == StartAt(s.base, s.log, lo) <==> lo < |s.home| && s.home[lo] == i
    ensures lo < |s.home| && s.home[lo] == i ==>
              Queue(s.log, s.home, lo, i) == [s.log[lo]] + Queue(s.log, s.home, lo + 1, i)
    ensures lo < |s.home| && s.home[lo] != i ==> Queue(s.log, s.home, lo, i) == Queue(s.log, s.home, lo + 1, i)
  {
    if lo < |s.home| {
      QueueSorted(s, lo + 1, i);
      ConcatNext(s.log, lo);
      assert s.log[lo].start == StartAt(s.base, s.log, lo) < StartAt(s.base, s.log, lo + 1);
    }
  }

  // ---------------------------------------------------------------------
  // What every step keeps
  // ---------------------------------------------------------------------

  lemma TakeSnoc(log: seq<Segment>, x: Segment, k: nat)
    requires k <= |log|
    ensures (log + [x])[..k] == log[..k]
  {
  }

  lemma TilesPush(base: nat, log: seq<Segment>, x: Segment)
    requires Tiles(base, log) && x.data != [] && x.start == base + |Concat(log)|
    ensures Tiles(base, log + [x]) && forall k :: 0 <= k <= |log| ==> StartAt(base, log + [x], k) == StartAt(base, log, k)
  {
    hide Concat;
    forall k | 0 <= k <= |log| ensures StartAt(base, log + [x], k) == StartAt(base, log, k) { TakeSnoc(log, x, k); }
    assert log[..|log|] == log;
  }

  lemma ReserveInv(s: State, data: seq<Byte>)
    requires Inv(s) && Enabled(s, Reserve(data))
    ensures Inv(Next(s, Reserve(data)))
  {
    hide Concat, Queue, Tiles, StartAt;
    var s' := Next(s, Reserve(data));
    var x := s'.staging.value;
    ConcatSnoc(s.log, x);
    TilesPush(s.base, s.log, x);
    TakeSnoc(s.log, x, s.filed);
    assert Staged(s') && Filed(s');
    hide Staged, Filed;
    assert RoundOk(s');
    hide RoundOk;
    forall i | 0 <= i < |s'.shards| ensures s'.shards[i] == Queue(s'.log, s'.home, Drained(s'), i) {
      QueueFrame(s.log, s'.log, s.home, Drained(s), i);
    }
  }

  lemma StageInv(s: State, i: nat)
    requires Inv(s) && Enabled(s, Stage(i))
    ensures Inv(Next(s, Stage(i)))
  {
    hide Concat, Queue, Tiles, StartAt;
    var s' := Next(s, Stage(i));
    assert Staged(s') && Filed(s') && RoundOk(s');
    hide Filed, RoundOk;
    forall j | 0 <= j < |s'.shards| ensures s'.shards[j] == Queue(s'.log, s'.home, Drained(s'), j) {
      QueuePush(s.log, s.home, Drained(s), j, s.staging.value, i);
    }
  }

  lemma BeginInv(s: State)
    requires Inv(s) && Enabled(s, Begin)
    ensures Inv(Next(s, Begin))
  {
    var s' := Next(s, Begin);
    hide Concat, Queue;
  }

  /** A pop takes the next reservation of the log, and only when the last sync succeeded. */
  lemma PopNext(s: State, i: nat)
    requires Inv(s) && Enabled(s, Pop(i))
    ensures s.durable == s.fileWritten && Drained(s) < |s.home| && s.home[Drained(s)] == i
    ensures s.shards[i][0] == s.log[Drained(s)]
    ensures s.shards[i][1..] == Queue(s.log, s.home, Drained(s) + 1, i)
  {
    var lo := Drained(s);
    QueueSorted(s, lo, i);
    FrontIsNext(s, lo, i);
    ConcatMono(s.log, s.filed, lo);
  }

  lemma StartNext(base: nat, log: seq<Segment>, k: nat)
    requires k < |log|
    ensures StartAt(base, log, k + 1) == StartAt(base, log, k) + |log[k].data|
  {
    ConcatNext(log, k);
  }

  lemma PopInv(s: State, i: nat)
    requires Inv(s) && Enabled(s, Pop(i))
    ensures Inv(Next(s, Pop(i)))
  {
    hide Concat, Queue, StartAt, Tiles;
    var s', lo := Next(s, Pop(i)), Drained(s);
    PopNext(s, i);
    StartNext(s.base, s.log, lo);
    assert Staged(s') && Filed(s') && Drained(s') == lo + 1;
    hide Staged, Filed;
    assert RoundOk(s');
    hide RoundOk;
    forall j | 0 <= j < |s'.shards| ensures s'.shards[j] == Queue(s'.log, s'.home, lo + 1, j) {
      FrontIsNext(s, lo, j);
    }
  }

  /** What a round popped, coalesced, continues the file. */
  lemma {:induction false} CoalesceIs(log: seq<Segment>, home: seq<nat>, filed: nat, batch: seq<Popped>)
    requires filed + |batch| <= |home| <= |log|
    requires forall j :: 0 <= j < |batch| ==> batch[j] == Popped(home[filed + j], log[filed + j])
    ensures Concat(log[..filed]) + Coalesce(batch) == Concat(log[..filed + |batch|])
  {
    if batch != [] {
      var init := batch[..|batch| - 1];
      CoalesceIs(log, home, filed, init);
      ConcatNext(log, filed + |init|);
      var last := batch[|init|];
      assert last.seg == log[filed + |init|];
      assert Coalesce(batch) == Coalesce(init) + last.seg.data;
    }
  }

  /** Requeueing restores every queue to what it would be had the round popped nothing. */
  lemma {:induction false} RequeueIs(s: State, shards: seq<seq<Segment>>, batch: seq<Popped>)
    requires Tiles(s.base, s.log) && s.filed + |batch| <= |s.home| <= |s.log|
    requires forall k :: 0 <= k < |s.home| ==> s.home[k] < |shards|
    requires forall j :: 0 <= j < |batch| ==> batch[j] == Popped(s.home[s.filed + j], s.log[s.filed + j])
    requires forall i :: 0 <= i < |shards| ==> shards[i] == Queue(s.log, s.home, s.filed + |batch|, i)
    ensures forall i :: 0 <= i < |shards| ==> Requeue(shards, batch)[i] == Queue(s.log, s.home, s.filed, i)
    decreases |batch|
  {
    if batch != [] {
      var init, last := batch[..|batch| - 1], batch[|batch| - 1];
      var shards' := shards[last.shard := [last.seg] + shards[last.shard]];
      var lo := s.filed + |init|;
      assert last == Popped(s.home[lo], s.log[lo]);
      forall i | 0 <= i < |shards'| ensures shards'[i] == Queue(s.log, s.home, lo, i) {
        FrontIsNext(s, lo, i);
      }
      hide Queue;
      RequeueIs(s, shards', init);
    }
  }

  lemma FileInv(s: State)
    requires Inv(s) && Enabled(s, Write(true))
    ensures Inv(Next(s, Write(true)))
  {
    hide Concat, Queue, Coalesce, Requeue, Tiles;
    CoalesceIs(s.log, s.home, s.filed, s.round.value.batch);
  }

  lemma RequeueInv(s: State)
    requires Inv(s) && Enabled(s, Write(false))
    ensures Inv(Next(s, Write(false)))
  {
    hide Concat, Queue, Coalesce, Requeue, Tiles, StartAt;
    RequeueIs(s, s.shards, s.round.value.batch);
  }

  lemma SyncInv(s: State, e: Event)
    requires Inv(s) && Enabled(s, e) && (e.Sync? || e.Quit?)
    ensures Inv(Next(s, e))
  {
    var s' := Next(s, e);
    hide Concat, Queue;
  }

  /** Every step of an appender or of a round keeps the invariant. */
  lemma StepInv(s: State, e: Event)
    requires Inv(s) && Enabled(s, e)
    ensures Inv(Next(s, e))
  {
    hide Inv, Next, Enabled;
    match e
    case Reserve(data) => ReserveInv(s, data);
    case Stage(i) => StageInv(s, i);
    case Begin => BeginInv(s);
    case Pop(i) => PopInv(s, i);
    case Write(ok) => if ok { FileInv(s); } else { RequeueInv(s); }
    case _ => SyncInv(s, e);
  }

  lemma {:induction false} RunInv(ss: seq<State>, es: seq<Event>, i: nat)
    requires Run(ss, es) && i < |ss|
    ensures Inv(ss[i])
  {
    if i > 0 {
      RunInv(ss, es, i - 1);
      assert Enabled(ss[i - 1], es[i - 1]) && ss[i] == Next(ss[i - 1], es[i - 1]);
      hide Inv, Next, Enabled;
      StepInv(ss[i - 1], es[i - 1]);
    }
  }

  // ---------------------------------------------------------------------
  // What follows in every run
  // ---------------------------------------------------------------------

  /** Between rounds the staged segments, with the one reserved but unstaged, tile
      [fileWritten, written), which is [durable, written) unless a sync failed; frontiers are
      ordered and every queue is sorted. */
  lemma StagedTile(ss: seq<State>, es: seq<Event>, m: nat)
    requires Run(ss, es) && m < |ss| && ss[m].round.None?
    ensures var s := ss[m];
            && s.base <= s.durable <= s.fileWritten <= s.written
            && s.filed <= |s.home| <= |s.log| && s.fileWritten == StartAt(s.base, s.log, s.filed) && s.written == StartAt(s.base, s.log, |s.log|)
            && (forall i :: 0 <= i < |s.shards| ==> s.shards[i] == Queue(s.log, s.home, s.filed, i) && Sorted(s.shards[i]))
            && (forall k :: 0 <= k < |s.log| ==> s.log[k].start == StartAt(s.base, s.log, k) && StartAt(s.base, s.log, k) + |s.log[k].data| == StartAt(s.base, s.log, k + 1))
  {
    RunInv(ss, es, m);
    var s := ss[m];
    assert s.log[..|s.log|] == s.log;
    ConcatMono(s.log, s.filed, |s.log|);
    forall i | 0 <= i < |s.shards| ensures Sorted(s.shards[i]) { QueueSorted(s, s.filed, i); }
    forall k | 0 <= k < |s.log| ensures StartAt(s.base, s.log, k) + |s.log[k].data| == StartAt(s.base, s.log, k + 1) { ConcatNext(s.log, k); }
  }

  /** A round meets a gap only when nothing staged is left to drain. */
  lemma GapMeansDrained(ss: seq<State>, es: seq<Event>, m: nat)
    requires Run(ss, es) && m < |ss|
    requires ss[m].round.Some? && !ss[m].round.value.filed && ss[m].durable == ss[m].fileWritten
    requires ss[m].round.value.frontier < ss[m].round.value.reserved
    requires forall i :: 0 <= i < |ss[m].shards| ==> !Enabled(ss[m], Pop(i))
    ensures forall i :: 0 <= i < |ss[m].shards| ==> ss[m].shards[i] == []
    ensures ss[m].staging.Some? && ss[m].staging.value.start == ss[m].round.value.frontier
  {
    RunInv(ss, es, m);
    var s := ss[m];
    var lo := Drained(s);
    if lo < |s.home| {
      FrontIsNext(s, lo, s.home[lo]);
      assert Enabled(s, Pop(s.home[lo]));
      assert false;
    }
    forall i | 0 <= i < |s.shards| ensures s.shards[i] == [] { FrontIsNext(s, lo, i); }
    assert s.log[..|s.log|] == s.log;
  }

  /** The file is the reservations in order, and what `wait_durable(end)` waits for is synced:
      every reservation that ends at or before `durable` is on disk at its offset. */
  lemma DurableIsSynced(ss: seq<State>, es: seq<Event>, m: nat, k: nat)
    requires Run(ss, es) && m < |ss| && k < |ss[m].log|
    requires ss[m].log[k].start + |ss[m].log[k].data| <= ss[m].durable
    ensures var s, seg := ss[m], ss[m].log[k];
            var at := seg.start - s.base;
            0 <= at && at + |seg.data| <= |s.disk| && s.disk[at..at + |seg.data|] == seg.data
  {
    RunInv(ss, es, m);
    var s, seg := ss[m], ss[m].log[k];
    ConcatNext(s.log, k);
    var before := Concat(s.log[..k]);
    if k + 1 > s.filed {
      ConcatMono(s.log, s.filed, k + 1);
      ConcatMono(s.log, s.filed, k);
    } else {
      ConcatMono(s.log, k + 1, s.filed);
    }
    hide Concat, Queue;
    assert s.disk <= s.file;
  }

  /** A failed sync freezes the log: no later round moves a byte and `durable` stays behind,
      so no waiter beyond it is ever told its bytes are safe. */
  lemma {:induction false} FailedSyncFreezes(ss: seq<State>, es: seq<Event>, m: nat, k: nat)
    requires Run(ss, es) && m <= k < |ss| && ss[m].round.None? && ss[m].durable < ss[m].fileWritten
    ensures ss[k].durable == ss[m].durable && ss[k].file == ss[m].file && ss[k].fileWritten == ss[m].fileWritten
    ensures ss[k].disk == ss[m].disk
    ensures ss[k].round.Some? ==> ss[k].round.value.batch == [] && !ss[k].round.value.filed
  {
    if m < k {
      FailedSyncFreezes(ss, es, m, k - 1);
      RunInv(ss, es, k - 1);
      hide Inv, Next, Enabled;
      FrozenStep(ss[k - 1], es[k - 1]);
    }
  }

  lemma FrozenStep(s: State, e: Event)
    requires Inv(s) && Enabled(s, e) && s.durable < s.fileWritten
    requires s.round.Some? ==> s.round.value.batch == [] && !s.round.value.filed
    ensures var t := Next(s, e);
            && t.durable == s.durable && t.file == s.file && t.fileWritten == s.fileWritten && t.disk == s.disk
            && (t.round.Some? ==> t.round.value.batch == [] && !t.round.value.filed)
  {
    hide Inv;
    if e.Pop? {
      PopNext(s, e.shard);
    }
  }

  lemma {:induction false} QueueSplit(log: seq<Segment>, home: seq<nat>, lo: nat, mid: nat, i: nat)
    requires lo <= mid <= |home| <= |log|
    ensures Queue(log, home, lo, i) == Queue(log[..mid], home[..mid], lo, i) + Queue(log, home, mid, i)
    decreases mid - lo
  {
    if lo < mid {
      QueueSplit(log, home, lo + 1, mid, i);
      var front := if home[lo] == i then [log[lo]] else [];
      assert Queue(log, home, lo, i) == front + Queue(log, home, lo + 1, i);
      assert home[..mid][lo] == home[lo] && log[..mid][lo] == log[lo];
      assert Queue(log[..mid], home[..mid], lo, i) == front + Queue(log[..mid], home[..mid], lo + 1, i);
    }
  }

  lemma {:induction false} RunGrows(ss: seq<State>, es: seq<Event>, i: nat, j: nat)
    requires Run(ss, es) && i <= j < |ss|
    ensures ss[i].log <= ss[j].log && ss[i].home <= ss[j].home && |ss[i].shards| == |ss[j].shards|
    ensures (forall x :: i <= x < j ==> !es[x].Write?) ==> ss[i].filed == ss[j].filed
  {
    if i < j {
      RunGrows(ss, es, i, j - 1);
      assert Enabled(ss[j - 1], es[j - 1]) && ss[j] == Next(ss[j - 1], es[j - 1]);
    }
  }

  /** A round begun at `b` whose write fails at `m` leaves every queue as it was at `b`,
      followed by what appenders staged into it meanwhile. */
  lemma FailedWriteRestores(ss: seq<State>, es: seq<Event>, b: nat, m: nat, i: nat)
    requires Run(ss, es) && b < m < |es| && es[b].Begin? && es[m] == Write(false) && i < |ss[b].shards|
    requires forall x :: b < x < m ==> !es[x].Write?
    ensures |ss[b].home| <= |ss[m + 1].home| <= |ss[m + 1].log| && i < |ss[m + 1].shards|
    ensures ss[m + 1].shards[i] == ss[b].shards[i] + Queue(ss[m + 1].log, ss[m + 1].home, |ss[b].home|, i)
    ensures ss[m + 1].durable == ss[m].durable && ss[m + 1].file == ss[m].file && ss[m + 1].round.None?
  {
    RunInv(ss, es, b);
    RunInv(ss, es, m + 1);
    RunGrows(ss, es, b, m);
    assert Enabled(ss[b], es[b]) && ss[b + 1] == Next(ss[b], es[b]);
    assert Enabled(ss[m], es[m]) && ss[m + 1] == Next(ss[m], es[m]);
    var s, t := ss[b], ss[m + 1];
    assert Drained(s) == s.filed == t.filed == Drained(t);
    QueueSplit(t.log, t.home, t.filed, |s.home|, i);
    assert t.home[..|s.home|] == s.home;
    QueueFrame(s.log[..|s.home|], s.log, s.home, s.filed, i);
    assert t.log[..|s.home|] == s.log[..|s.home|];
  }

  // ---------------------------------------------------------------------
  // The shared log, updated in place
  // ---------------------------------------------------------------------

  class WalShared {
    var written: nat
    var fileWritten: nat
    var durable: nat
    var file: seq<Byte>
    var shards: seq<seq<Segment>>
    ghost var model: State

    ghost predicate Valid()
      reads this
    {
      && Inv(model) && model.written == written && model.fileWritten == fileWritten && model.durable == durable
      && model.file == file && model.shards == shards
    }

    constructor (len: nat, n: nat)
      requires n > 0
      ensures Valid() && model == Init(len, n)
    {
      written, fileWritten, durable, file := len, len, len, [];
      shards := seq(n, _ => []);
      model := Init(len, n);
    }

    /** Reserve and stage under the sequencer lock. */
    method AppendRecords(data: seq<Byte>, shard: nat) returns (start: nat, end: nat)
      requires Valid() && model.staging.None? && shard < |shards|
      modifies this
      ensures Valid() && (start, end) == (old(written), old(written) + |data|) && written == end
      ensures model == if data == [] then old(model) else Next(Next(old(model), Reserve(data)), Stage(shard))
      ensures data != [] ==> model.log == old(model.log) + [Segment(old(written), data)]
      ensures data != [] ==> shards == old(shards)[shard := old(shards)[shard] + [Segment(old(written), data)]]
    {
      hide Inv;
      start, end := written, written;
      if data == [] {
        return;
      }
      written := written + |data|;
      shards := shards[shard := shards[shard] + [Segment(start, data)]];
      end := written;
      StepInv(model, Reserve(data));
      model := Next(model, Reserve(data));
      StepInv(model, Stage(shard));
      model := Next(model, Stage(shard));
    }

    /** Pops staged segments in offset order from the durable frontier until `cap` bytes, the
        reserved frontier, or a gap. What it popped continues the file in reservation order. */
    method DrainAvailable(cap: nat) returns (batch: seq<Popped>, frontier: nat)
      requires Valid() && model.round.None?
      modifies this
      ensures Valid() && model.round == Some(Round(frontier, old(written), batch, false))
      ensures model.log == old(model.log) && model.home == old(model.home) && model.filed == old(model.filed)
      ensures written == old(written) && fileWritten == old(fileWritten) && durable == old(durable) && file == old(file)
      ensures |Coalesce(batch)| >= cap || frontier >= old(written) || forall i :: 0 <= i < |shards| ==> !Enabled(model, Pop(i))
    {
      hide Inv, Coalesce;
      StepInv(model, Begin);
      batch, frontier := [], durable;
      var reserved := written;
      model := Next(model, Begin);
      var bytes := 0;
      NoBytes();
      while frontier < reserved && bytes < cap
        invariant Valid() && model.round == Some(Round(frontier, reserved, batch, false)) && reserved == old(written)
        invariant model.log == old(model.log) && model.home == old(model.home) && model.filed == old(model.filed)
        invariant written == old(written) && fileWritten == old(fileWritten) && durable == old(durable) && file == old(file)
        invariant bytes == |Coalesce(batch)|
        decreases reserved - frontier
      {
        var i := 0;
        while i < |shards| && (shards[i] == [] || shards[i][0].start != frontier)
          invariant 0 <= i <= |shards|
          invariant forall j :: 0 <= j < i ==> shards[j] == [] || shards[j][0].start != frontier
        {
          i := i + 1;
        }
        if i == |shards| {
          break;
        }
        var data := shards[i][0].data;
        StepInv(model, Pop(i));
        PopNonempty(model, i);
        PopBytes(batch, Popped(i, shards[i][0]));
        model := Next(model, Pop(i));
        batch := batch + [Popped(i, shards[i][0])];
        shards := shards[i := shards[i][1..]];
        frontier := frontier + |data|;
        bytes := bytes + |data|;
      }
    }

    /** One ordered write, then a sync; `writes` and `syncs` say whether the file obeys. */
    method WriteAndSync(batch: seq<Popped>, frontier: nat, writes: bool, syncs: bool) returns (ok: bool)
      requires Valid() && model.round.Some? && model.round.value.batch == batch != [] && !model.round.value.filed
      requires model.round.value.frontier == frontier && Enabled(model, Write(writes))
      modifies this
      ensures Valid() && ok == (writes && syncs) && model.round.None?
      ensures writes ==> file == old(file) + Coalesce(batch) && fileWritten == frontier && shards == old(shards)
      ensures !writes ==> file == old(file) && fileWritten == old(fileWritten) && shards == Requeue(old(shards), batch)
      ensures ok ==> durable == frontier && model.disk == file
      ensures !ok ==> durable == old(durable) && model.disk == old(model.disk)
      ensures !writes ==> model == Next(old(model), Write(false))
      ensures writes ==> model == Next(Next(old(model), Write(true)), Sync(syncs))
    {
      hide Inv, Requeue;
      var coalesced := CoalesceBatch(batch);
      StepInv(model, Write(writes));
      if !writes {
        shards := RequeueAll(shards, batch);
        model := Next(model, Write(false));
        return false;
      }
      file, fileWritten := file + coalesced, frontier;
      model := Next(model, Write(true));
      StepInv(model, Sync(syncs));
      FrontierAhead(model);
      model := Next(model, Sync(syncs));
      if !syncs {
        return false;
      }
      durable := if frontier > durable then frontier else durable;
      return true;
    }

    static method CoalesceBatch(batch: seq<Popped>) returns (bytes: seq<Byte>)
      ensures bytes == Coalesce(batch)
    {
      bytes := [];
      for j := 0 to |batch|
        invariant bytes == Coalesce(batch[..j])
      {
        assert batch[..j + 1][..j] == batch[..j];
        bytes := bytes + batch[j].seg.data;
      }
      assert batch[..|batch|] == batch;
    }

    static method RequeueAll(queues: seq<seq<Segment>>, batch: seq<Popped>) returns (r: seq<seq<Segment>>)
      requires forall j :: 0 <= j < |batch| ==> batch[j].shard < |queues|
      ensures r == Requeue(queues, batch)
    {
      r := queues;
      var back := batch;
      while back != []
        invariant |r| == |queues| && (forall j :: 0 <= j < |back| ==> back[j].shard < |r|)
        invariant Requeue(r, back) == Requeue(queues, batch)
        decreases |back|
      {
        var last := back[|back| - 1];
        back := back[..|back| - 1];
        r := r[last.shard := [last.seg] + r[last.shard]];
      }
    }

    /** The check a durability waiter makes. */
    method IsDurable(end: nat) returns (yes: bool)
      requires Valid()
      ensures yes <==> durable >= end
    {
      yes := durable >= end;
    }
  }

  lemma NoBytes()
    ensures Coalesce([]) == []
  {
  }

  lemma PopBytes(batch: seq<Popped>, p: Popped)
    ensures Coalesce(batch + [p]) == Coalesce(batch) + p.seg.data
  {
    assert (batch + [p])[..|batch|] == batch;
  }

  lemma PopNonempty(s: State, i: nat)
    requires Inv(s) && Enabled(s, Pop(i))
    ensures s.shards[i][0].data != []
  {
    PopNext(s, i);
  }

  lemma FrontierAhead(s: State)
    requires Inv(s) && s.round.Some? && s.round.value.filed
    ensures s.durable <= s.round.value.frontier
  {
  }
}
