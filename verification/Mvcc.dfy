/**
 The MVCC version buffer: chains of superseded rows, commit epochs, snapshot pins
 and garbage collection, with the install sequence record, apply row by row,
 publish. Every step a database thread can take is a function on `State`; the
 class `VersionBuffer` performs the same steps in place.
 */
module Mvcc {
  import opened Bytes

  type RowKey = (string, Key)
  type Row = Key

  /** Superseded states of one key, newest first: `row` was in force before `until`. */
  datatype Version = Version(until: nat, row: Option<Row>)
  type Chain = seq<Version>

  /** An install between its record and its publication. */
  datatype Install = Install(epoch: nat, writes: map<RowKey, Option<Row>>, todo: set<RowKey>)

  datatype State = State(
    tree: map<RowKey, Row>,           // the committed trees, as installed so far
    committed: map<RowKey, nat>,      // latest recorded epoch per key
    chains: map<RowKey, Chain>,
    snapshots: map<nat, nat>,         // pin id -> read epoch
    nextSnapshot: nat,
    nextEpoch: nat,
    visible: nat,                     // last published epoch
    install: Option<Install>,
    published: map<RowKey, Row>       // what the trees held when `visible` was published
  )

  function Get<V>(m: map<RowKey, V>, k: RowKey): Option<V> {
    if k in m then Some(m[k]) else None
  }

  function Put(m: map<RowKey, Row>, k: RowKey, w: Option<Row>): map<RowKey, Row> {
    match w
    case Some(row) => m[k := row]
    case None => m - {k}
  }

  function ChainOf(s: State, k: RowKey): Chain {
    if k in s.chains then s.chains[k] else []
  }

  // ---------------------------------------------------------------------
  // Reading under a snapshot
  // ---------------------------------------------------------------------

  /** The oldest entry of the leading run with `until > epoch`, if there is one. */
  function Walk(chain: Chain, epoch: nat): Option<Option<Row>> {
    if chain == [] || chain[0].until <= epoch then None
    else match Walk(chain[1..], epoch)
         case Some(r) => Some(r)
         case None => Some(chain[0].row)
  }

  datatype Lookup = Ok(row: Option<Row>) | HistoryMissing

  /** What a snapshot at `epoch` is told about `k`, given the row `current` it read from
      the tree. */
  function SnapshotLookup(s: State, epoch: nat, k: RowKey, current: Option<Row>): Lookup {
    if (if k in s.committed then s.committed[k] else 0) <= epoch then Ok(current)
    else match Walk(ChainOf(s, k), epoch)
         case Some(r) => Ok(r)
         case None => HistoryMissing
  }

  /** Keys of `table` outside `present` whose history shows a row at `epoch`. */
  function ScanExtra(s: State, epoch: nat, table: string, present: set<RowKey>): (m: map<RowKey, Row>)
    ensures forall k :: k in m <==> k.0 == table && k !in present && ExtraRow(s, epoch, k).Some?
    ensures forall k :: k in m ==> Some(m[k]) == ExtraRow(s, epoch, k)
  {
    map k | k in s.chains && k.0 == table && k !in present && ExtraRow(s, epoch, k).Some? :: ExtraRow(s, epoch, k).value
  }

  function ExtraRow(s: State, epoch: nat, k: RowKey): Option<Row> {
    match Walk(ChainOf(s, k), epoch)
    case Some(r) => r
    case None => None
  }

  // ---------------------------------------------------------------------
  // Steps
  // ---------------------------------------------------------------------

  /** Recording a superseded state is skipped when the write changes nothing. */
  predicate Changes(s: State, k: RowKey, w: Option<Row>) { Get(s.tree, k) != w }

  predicate Recorded(s: State, writes: map<RowKey, Option<Row>>, k: RowKey) {
    k in writes && Changes(s, k, writes[k])
  }

  function RecordedChain(s: State, epoch: nat, writes: map<RowKey, Option<Row>>, k: RowKey): Chain {
    if Recorded(s, writes, k) then [Version(epoch, Get(s.tree, k))] + ChainOf(s, k) else ChainOf(s, k)
  }

  function Record(s: State, epoch: nat, writes: map<RowKey, Option<Row>>): State {
    var changed := set k | k in writes && Recorded(s, writes, k);
    s.(chains := map k | k in s.chains.Keys + changed :: RecordedChain(s, epoch, writes, k),
       committed := map k | k in s.committed.Keys + changed :: if Recorded(s, writes, k) then epoch else s.committed[k],
       install := Some(Install(epoch, writes, writes.Keys)))
  }

  function Apply(s: State, k: RowKey): State
    requires s.install.Some? && k in s.install.value.todo && k in s.install.value.writes
  {
    var i := s.install.value;
    s.(tree := Put(s.tree, k, i.writes[k]), install := Some(i.(todo := i.todo - {k})))
  }

  function Publish(s: State): State
    requires s.install.Some?
  {
    s.(visible := s.install.value.epoch, published := s.tree, install := None)
  }

  function Pin(s: State): State {
    s.(snapshots := s.snapshots[s.nextSnapshot := s.visible], nextSnapshot := s.nextSnapshot + 1)
  }

  function Retain(chain: Chain, oldest: nat): Chain {
    if chain == [] then []
    else (if chain[0].until > oldest then [chain[0]] else []) + Retain(chain[1..], oldest)
  }

  /** `oldest` is the smallest pinned read epoch, `None` when nothing is pinned. */
  function Prune(s: State, oldest: Option<nat>): State {
    match oldest
    case None => s.(chains := map[], committed := map[])
    case Some(o) =>
      s.(chains := map k | k in s.chains && Retain(s.chains[k], o) != [] :: Retain(s.chains[k], o),
         committed := map k | k in s.committed && s.committed[k] > o :: s.committed[k])
  }

  ghost predicate IsOldest(s: State, oldest: Option<nat>) {
    match oldest
    case None => s.snapshots == map[]
    case Some(o) =>
      && (exists id :: id in s.snapshots && s.snapshots[id] == o)
      && forall id :: id in s.snapshots ==> o <= s.snapshots[id]
  }

  ghost predicate Gc(s: State, s': State) {
    exists o :: IsOldest(s, o) && s' == Prune(s, o)
  }

  function Unpin(s: State, id: nat): State { s.(snapshots := s.snapshots - {id}) }

  /** Any step of any thread. */
  datatype Event =
    | AllocEpoch
    | RecordInstall(epoch: nat, writes: map<RowKey, Option<Row>>)
    | ApplyRow(k: RowKey)
    | PublishEpoch
    | PinSnapshot
    | UnpinSnapshot(id: nat)
    | Collect

  ghost predicate Step(s: State, e: Event, s': State) {
    match e
    case AllocEpoch => s' == s.(nextEpoch := s.nextEpoch + 1)
    case RecordInstall(epoch, writes) =>
      s.install.None? && s.visible < epoch < s.nextEpoch && s' == Record(s, epoch, writes)
    case ApplyRow(k) =>
      s.install.Some? && k in s.install.value.todo && k in s.install.value.writes && s' == Apply(s, k)
    case PublishEpoch => s.install.Some? && s.install.value.todo == {} && s' == Publish(s)
    case PinSnapshot => s' == Pin(s)
    case UnpinSnapshot(id) => id in s.snapshots && Gc(Unpin(s, id), s')
    case Collect => Gc(s, s')
  }

  ghost predicate Init(s: State) {
    && s.committed == map[] && s.chains == map[] && s.snapshots == map[]
    && s.visible < s.nextEpoch && s.install == None && s.published == s.tree
  }

  /** A run: `ss[i]` goes to `ss[i + 1]` by `es[i]`. */
  ghost predicate Run(ss: seq<State>, es: seq<Event>) {
    |ss| == |es| + 1 && forall i :: 0 <= i < |es| ==> Step(ss[i], es[i], ss[i + 1])
  }

  // ---------------------------------------------------------------------
  // Invariant of every reachable state
  // ---------------------------------------------------------------------

  ghost predicate Newest(chain: Chain, top: nat) {
    && |chain| > 0
    && (forall i :: 0 <= i < |chain| ==> chain[i].until <= top)
    && forall i, j :: 0 <= i < j < |chain| ==> chain[i].until > chain[j].until
  }

  ghost function Top(s: State): nat {
    if s.install.Some? then s.install.value.epoch else s.visible
  }

  ghost predicate Inv(s: State) {
    && s.visible <= Top(s) < s.nextEpoch
    && s.chains.Keys == s.committed.Keys
    && (forall k :: k in s.chains ==> Newest(s.chains[k], Top(s)) && s.committed[k] == s.chains[k][0].until)
    && (forall id :: id in s.snapshots ==> id < s.nextSnapshot && s.snapshots[id] <= s.visible)
    && (s.install.None? ==> s.tree == s.published)
    && (s.install.Some? ==> InstallInv(s, s.install.value))
  }

  ghost predicate InstallInv(s: State, i: Install) {
    && i.epoch > s.visible && i.todo <= i.writes.Keys
    && (forall k :: k in i.writes && k !in i.todo ==> Get(s.tree, k) == i.writes[k])
    && (forall k :: k !in i.writes || k in i.todo ==> Get(s.tree, k) == Get(s.published, k))
    && forall k, j :: k in s.chains && 0 <= j < |s.chains[k]| && s.chains[k][j].until > s.visible ==>
         j == 0 && s.chains[k][j] == Version(i.epoch, Get(s.published, k))
  }

  /** The recorded history of `k` for the install in flight is still there (or not needed). */
  ghost predicate HeldFor(s: State, k: RowKey) {
    s.install.Some? && k in s.install.value.writes && s.install.value.writes[k] != Get(s.published, k) ==>
      k in s.chains && s.chains[k] != [] && s.chains[k][0].until == s.install.value.epoch
  }

  /** The history of an install in flight has not been collected. */
  ghost predicate HistoryHeld(s: State) { forall k :: HeldFor(s, k) }

  /** What the chain and the tree together say about `k` at `epoch`, now and after the
      install in flight: it is `row`. */
  ghost predicate Reads(s: State, epoch: nat, k: RowKey, row: Option<Row>) {
    match Walk(ChainOf(s, k), epoch)
    case Some(r) => r == row
    case None =>
      && Get(s.tree, k) == row
      && (s.install.Some? && k in s.install.value.todo && k in s.install.value.writes ==> s.install.value.writes[k] == row)
  }

  // ---------------------------------------------------------------------
  // Chains under collection
  // ---------------------------------------------------------------------

  ghost predicate Descending(chain: Chain) {
    forall i, j :: 0 <= i < j < |chain| ==> chain[i].until > chain[j].until
  }

  lemma {:induction false} RetainIsPrefix(chain: Chain, o: nat)
    requires Descending(chain)
    ensures Retain(chain, o) <= chain
    ensures Retain(chain, o) == [] <==> chain == [] || chain[0].until <= o
  {
    if chain != [] {
      RetainIsPrefix(chain[1..], o);
      if chain[0].until <= o && |chain| > 1 {
        assert chain[1..][0].until < chain[0].until;
      }
    }
  }

  /** Collection never drops an entry a reader at or after the horizon consults. */
  lemma {:induction false} WalkSurvives(chain: Chain, o: nat, epoch: nat)
    requires Descending(chain) && o <= epoch
    ensures Walk(Retain(chain, o), epoch) == Walk(chain, epoch)
  {
    if chain != [] {
      WalkSurvives(chain[1..], o, epoch);
      if chain[0].until > o {
        assert Retain(chain, o)[1..] == Retain(chain[1..], o);
      } else {
        RetainIsPrefix(chain, o);
      }
    }
  }

  lemma WalkPush(v: Version, chain: Chain, epoch: nat)
    requires v.until > epoch
    ensures Walk([v] + chain, epoch) == match Walk(chain, epoch) case Some(r) => Some(r) case None => Some(v.row)
  {
    assert ([v] + chain)[1..] == chain;
  }

  // ---------------------------------------------------------------------
  // The invariant is kept by every step
  // ---------------------------------------------------------------------

  lemma RecordChain(s: State, epoch: nat, writes: map<RowKey, Option<Row>>, k: RowKey)
    requires s.visible < epoch && (k in s.chains ==> Newest(s.chains[k], s.visible))
    requires k in s.chains || Recorded(s, writes, k)
    ensures var c := RecordedChain(s, epoch, writes, k);
            && Newest(c, epoch)
            && (Recorded(s, writes, k) ==> c[0] == Version(epoch, Get(s.tree, k)))
            && (!Recorded(s, writes, k) ==> c == s.chains[k])
            && forall j :: 0 <= j < |c| && c[j].until > s.visible ==> j == 0 && Recorded(s, writes, k)
  {
    if Recorded(s, writes, k) {
      PushNewest(Version(epoch, Get(s.tree, k)), ChainOf(s, k), s.visible);
    }
  }

  lemma PushNewest(v: Version, before: Chain, top: nat)
    requires v.until > top && (before != [] ==> Newest(before, top))
    ensures Newest([v] + before, v.until)
    ensures forall j :: 0 <= j < |[v] + before| && ([v] + before)[j].until > top ==> j == 0
  {
  }

  lemma RecordInv(s: State, epoch: nat, writes: map<RowKey, Option<Row>>)
    requires Inv(s) && s.install.None? && s.visible < epoch < s.nextEpoch
    ensures Inv(Record(s, epoch, writes)) && HistoryHeld(Record(s, epoch, writes))
  {
    var s' := Record(s, epoch, writes);
    forall k | k in s'.chains
      ensures Newest(s'.chains[k], epoch) && s'.committed[k] == s'.chains[k][0].until
      ensures Recorded(s, writes, k) ==> s'.chains[k][0].until == epoch
      ensures forall j :: 0 <= j < |s'.chains[k]| && s'.chains[k][j].until > s.visible ==>
                j == 0 && s'.chains[k][j] == Version(epoch, Get(s.published, k))
    {
      RecordChain(s, epoch, writes, k);
      hide RecordedChain;
    }
    hide Newest, RecordedChain;
  }

  lemma ApplyInv(s: State, k: RowKey)
    requires Inv(s) && s.install.Some? && k in s.install.value.todo && k in s.install.value.writes
    ensures Inv(Apply(s, k))
  {
    var s' := Apply(s, k);
    assert forall q :: q != k ==> Get(s'.tree, q) == Get(s.tree, q);
    assert Get(s'.tree, k) == s.install.value.writes[k];
  }

  lemma PublishInv(s: State)
    requires Inv(s) && s.install.Some? && s.install.value.todo == {}
    ensures Inv(Publish(s))
  {
  }

  lemma PruneChain(c: Chain, o: nat, top: nat)
    requires Newest(c, top)
    ensures Retain(c, o) <= c && (Retain(c, o) == [] <==> c[0].until <= o)
    ensures Retain(c, o) != [] ==> Newest(Retain(c, o), top) && Retain(c, o)[0] == c[0]
  {
    RetainIsPrefix(c, o);
  }

  lemma PruneInv(s: State, o: Option<nat>)
    requires Inv(s) && IsOldest(s, o)
    ensures Inv(Prune(s, o))
  {
    if o.Some? {
      forall k | k in s.chains
        ensures var c, r := s.chains[k], Retain(s.chains[k], o.value);
                r <= c && (r == [] <==> s.committed[k] <= o.value) && (r != [] ==> Newest(r, Top(s)) && r[0] == c[0])
      {
        PruneChain(s.chains[k], o.value, Top(s));
      }
      PruneShape(s, o.value);
    }
  }

  lemma PruneShape(s: State, o: nat)
    requires Inv(s)
    requires forall k :: k in s.chains ==>
               var c, r := s.chains[k], Retain(s.chains[k], o);
               r <= c && (r == [] <==> s.committed[k] <= o) && (r != [] ==> Newest(r, Top(s)) && r[0] == c[0])
    ensures Inv(Prune(s, Some(o)))
  {
    hide Newest, Retain;
    var s' := Prune(s, Some(o));
    assert s'.chains.Keys == s'.committed.Keys;
    if s.install.Some? {
      forall k, j | k in s'.chains && 0 <= j < |s'.chains[k]| && s'.chains[k][j].until > s.visible
        ensures j == 0 && s'.chains[k][j] == Version(s.install.value.epoch, Get(s.published, k))
      {
        assert s'.chains[k][j] == s.chains[k][j];
      }
    }
  }

  lemma UnpinInv(s: State, id: nat)
    requires Inv(s)
    ensures Inv(Unpin(s, id))
  {
  }

  lemma StepInv(s: State, e: Event, s': State)
    requires Inv(s) && Step(s, e, s')
    ensures Inv(s')
  {
    match e
    case AllocEpoch =>
    case RecordInstall(epoch, writes) => RecordInv(s, epoch, writes);
    case ApplyRow(k) => ApplyInv(s, k);
    case PublishEpoch => PublishInv(s);
    case PinSnapshot =>
    case UnpinSnapshot(id) =>
      UnpinInv(s, id);
      var o :| IsOldest(Unpin(s, id), o) && s' == Prune(Unpin(s, id), o);
      PruneInv(Unpin(s, id), o);
    case Collect =>
      var o :| IsOldest(s, o) && s' == Prune(s, o);
      PruneInv(s, o);
  }

  // ---------------------------------------------------------------------
  // A pinned snapshot keeps reading the same rows
  // ---------------------------------------------------------------------

  ghost predicate Live(s: State, id: nat, epoch: nat) { id in s.snapshots && s.snapshots[id] == epoch }

  lemma PruneReads(s: State, o: Option<nat>, id: nat, epoch: nat, k: RowKey)
    requires Inv(s) && IsOldest(s, o) && Live(s, id, epoch)
    ensures Walk(ChainOf(Prune(s, o), k), epoch) == Walk(ChainOf(s, k), epoch)
  {
    if k in s.chains {
      assert Newest(s.chains[k], Top(s));
      WalkSurvives(s.chains[k], o.value, epoch);
    }
  }

  lemma RecordReads(s: State, n: nat, writes: map<RowKey, Option<Row>>, epoch: nat, k: RowKey, row: Option<Row>)
    requires Inv(s) && s.install.None? && n > epoch && Reads(s, epoch, k, row)
    ensures Reads(Record(s, n, writes), epoch, k, row)
    ensures Walk(ChainOf(s, k), epoch).Some? ==> Walk(ChainOf(Record(s, n, writes), k), epoch).Some?
  {
    var s' := Record(s, n, writes);
    if Recorded(s, writes, k) {
      assert ChainOf(s', k) == [Version(n, Get(s.tree, k))] + ChainOf(s, k);
      WalkPush(Version(n, Get(s.tree, k)), ChainOf(s, k), epoch);
    } else {
      assert ChainOf(s', k) == ChainOf(s, k);
    }
  }

  /** One step of any thread leaves the rows of a live snapshot as they are. */
  lemma StepReads(s: State, e: Event, s': State, id: nat, epoch: nat, k: RowKey, row: Option<Row>)
    requires Inv(s) && Step(s, e, s') && Live(s, id, epoch) && Live(s', id, epoch) && Reads(s, epoch, k, row)
    ensures Reads(s', epoch, k, row)
    ensures Walk(ChainOf(s, k), epoch).Some? ==> Walk(ChainOf(s', k), epoch).Some?
  {
    match e
    case RecordInstall(n, writes) => RecordReads(s, n, writes, epoch, k, row);
    case UnpinSnapshot(other) =>
      UnpinInv(s, other);
      GcReads(Unpin(s, other), s', id, epoch, k);
    case Collect => GcReads(s, s', id, epoch, k);
    case _ =>
  }

  lemma GcReads(s: State, s': State, id: nat, epoch: nat, k: RowKey)
    requires Inv(s) && Gc(s, s') && Live(s', id, epoch)
    ensures Walk(ChainOf(s', k), epoch) == Walk(ChainOf(s, k), epoch)
    ensures s'.tree == s.tree && s'.install == s.install
  {
    var o :| IsOldest(s, o) && s' == Prune(s, o);
    assert s'.snapshots == s.snapshots;
    PruneReads(s, o, id, epoch, k);
  }

  lemma {:induction false} RunInv(ss: seq<State>, es: seq<Event>, i: nat)
    requires Run(ss, es) && i < |ss| && Inv(ss[0])
    ensures Inv(ss[i])
  {
    if i > 0 {
      RunInv(ss, es, i - 1);
      assert Step(ss[i - 1], es[i - 1], ss[i - 1 + 1]);
      StepInv(ss[i - 1], es[i - 1], ss[i]);
    }
  }

  /** Every state reached from an initial one has the invariant. */
  lemma ReachableInv(ss: seq<State>, es: seq<Event>, i: nat)
    requires Run(ss, es) && i < |ss| && Init(ss[0])
    ensures Inv(ss[i])
  {
    RunInv(ss, es, i);
  }

  /** A pin lasts until its own end: no other step, of any thread, takes it away or moves it. */
  lemma PinLasts(s: State, e: Event, s': State, id: nat, epoch: nat)
    requires Inv(s) && Step(s, e, s') && Live(s, id, epoch) && e != UnpinSnapshot(id)
    ensures Live(s', id, epoch)
  {
  }

  /** Pin `id` is not ended by the steps from `i` up to `j`. */
  ghost predicate Unended(es: seq<Event>, i: nat, j: nat, id: nat) {
    forall n :: i <= n < j && n < |es| ==> es[n] != UnpinSnapshot(id)
  }

  lemma {:induction false} RunReads(ss: seq<State>, es: seq<Event>, i: nat, j: nat, id: nat, epoch: nat, k: RowKey, row: Option<Row>)
    requires Run(ss, es) && Inv(ss[0]) && i <= j < |ss| && Live(ss[i], id, epoch) && Unended(es, i, j, id)
    requires Reads(ss[i], epoch, k, row)
    ensures Reads(ss[j], epoch, k, row) && Live(ss[j], id, epoch)
    ensures Walk(ChainOf(ss[i], k), epoch).Some? ==> Walk(ChainOf(ss[j], k), epoch).Some?
    decreases j - i
  {
    if i < j {
      RunReads(ss, es, i, j - 1, id, epoch, k, row);
      RunInv(ss, es, j - 1);
      assert Step(ss[j - 1], es[j - 1], ss[j - 1 + 1]);
      assert es[j - 1] != UnpinSnapshot(id);
      PinLasts(ss[j - 1], es[j - 1], ss[j], id, epoch);
      StepReads(ss[j - 1], es[j - 1], ss[j], id, epoch, k, row);
    }
  }

  // ---------------------------------------------------------------------
  // Main results
  // ---------------------------------------------------------------------

  /** At the pin the snapshot reads the published state, if its history is held. */
  lemma PinReads(s: State, k: RowKey)
    requires Inv(s) && HeldFor(s, k)
    ensures Reads(Pin(s), s.visible, k, Get(s.published, k))
  {
    var c := ChainOf(s, k);
    if k in s.chains {
      assert Newest(c, Top(s));
      WalkFront(c, s.visible);
    }
  }

  lemma WalkFront(c: Chain, epoch: nat)
    requires c != [] && forall j :: 0 < j < |c| ==> c[j].until <= epoch
    ensures Walk(c, epoch) == if c[0].until > epoch then Some(c[0].row) else None
  {
    if |c| > 1 {
      assert c[1..][0] == c[1];
    }
  }

  /** The committed epoch and the chain agree on whether a key changed after `epoch`. */
  lemma LookupReads(s: State, epoch: nat, k: RowKey, row: Option<Row>, current: Option<Row>)
    requires Inv(s) && Reads(s, epoch, k, row)
    requires Walk(ChainOf(s, k), epoch).None? ==> current == row
    ensures SnapshotLookup(s, epoch, k, current) == Ok(row)
  {
    if k in s.chains {
      assert Newest(s.chains[k], Top(s));
    }
  }

  /** Snapshot isolation for point reads. In any run, a snapshot pinned at step `i` while
      the history in flight is held is told, at any later time, the row published at its
      epoch: also when it reads the tree at `j` and the version buffer only at `m`. The
      history-missing error is never reached. */
  lemma PointReadIsStable(ss: seq<State>, es: seq<Event>, i: nat, j: nat, m: nat, k: RowKey)
    requires Run(ss, es) && Inv(ss[0]) && i < |es| && es[i] == PinSnapshot && HistoryHeld(ss[i])
    requires i < j <= m < |ss| && Unended(es, i + 1, m, ss[i].nextSnapshot)
    ensures SnapshotLookup(ss[m], ss[i].visible, k, Get(ss[j].tree, k)) == Ok(Get(ss[i].published, k))
  {
    var id, epoch, row := ss[i].nextSnapshot, ss[i].visible, Get(ss[i].published, k);
    RunInv(ss, es, i);
    assert HeldFor(ss[i], k);
    PinReads(ss[i], k);
    assert Step(ss[i], es[i], ss[i + 1]) && Live(ss[i + 1], id, epoch);
    RunReads(ss, es, i + 1, j, id, epoch, k, row);
    RunReads(ss, es, j, m, id, epoch, k, row);
    RunInv(ss, es, m);
    LookupReads(ss[m], epoch, k, row, Get(ss[j].tree, k));
  }

  function TableRows(m: map<RowKey, Row>, table: string): map<RowKey, Row> {
    map k | k in m && k.0 == table :: m[k]
  }

  /** Every key some tree of the run holds. */
  ghost function TreeKeys(ss: seq<State>): set<RowKey> {
    if ss == [] then {} else TreeKeys(ss[..|ss| - 1]) + ss[|ss| - 1].tree.Keys
  }

  lemma {:induction false} TreeKeysHold(ss: seq<State>, i: nat)
    requires i < |ss|
    ensures ss[i].tree.Keys <= TreeKeys(ss)
  {
    if i < |ss| - 1 {
      TreeKeysHold(ss[..|ss| - 1], i);
    }
  }

  /** A full scan of `table`: each key is read from the tree at a time of its own, `leaf(k)`,
      as the walk passes its leaf, and resolved at a later one; the missing keys come from the
      chains last. */
  ghost function ScanRows(ss: seq<State>, table: string, epoch: nat, leaf: RowKey -> nat, at: RowKey -> nat, m: nat): map<RowKey, Row>
    requires m < |ss| && forall k :: leaf(k) < |ss| && at(k) < |ss|
  {
    var kept := map k | k in TreeKeys(ss) && k.0 == table && k in ss[leaf(k)].tree
                        && Resolved(ss[at(k)], epoch, k, ss[leaf(k)].tree[k]).Some? ::
                  Resolved(ss[at(k)], epoch, k, ss[leaf(k)].tree[k]).value;
    kept + ScanExtra(ss[m], epoch, table, kept.Keys)
  }

  ghost function Resolved(s: State, epoch: nat, k: RowKey, row: Row): Option<Row> {
    match SnapshotLookup(s, epoch, k, Some(row))
    case Ok(r) => r
    case HistoryMissing => None
  }

  lemma ExtraReads(s: State, epoch: nat, k: RowKey, row: Option<Row>)
    requires Reads(s, epoch, k, row)
    ensures ExtraRow(s, epoch, k) == if Walk(ChainOf(s, k), epoch).Some? then row else None
  {
  }

  /** Snapshot isolation for full scans, whatever installs come between its reads: exactly the
      rows published at the snapshot's epoch. */
  lemma ScanIsStable(ss: seq<State>, es: seq<Event>, table: string, i: nat, leaf: RowKey -> nat, at: RowKey -> nat, m: nat)
    requires Run(ss, es) && Inv(ss[0]) && i < |es| && es[i] == PinSnapshot && HistoryHeld(ss[i])
    requires m < |ss| && Unended(es, i + 1, m, ss[i].nextSnapshot)
    requires forall k :: i < leaf(k) <= at(k) <= m
    ensures ScanRows(ss, table, ss[i].visible, leaf, at, m) == TableRows(ss[i].published, table)
  {
    var epoch := ss[i].visible;
    var rows, wanted := ScanRows(ss, table, epoch, leaf, at, m), TableRows(ss[i].published, table);
    forall k
      ensures Get(rows, k) == Get(wanted, k)
    {
      if k.0 == table {
        ScanKey(ss, es, table, i, leaf, at, m, k);
      }
    }
    MapsEqual(rows, wanted);
  }

  lemma MapsEqual(a: map<RowKey, Row>, b: map<RowKey, Row>)
    requires forall k :: Get(a, k) == Get(b, k)
    ensures a == b
  {
    assert forall k :: (k in a <==> Get(a, k).Some?) && (k in b <==> Get(b, k).Some?);
    assert forall k :: k in a ==> Get(a, k) == Some(a[k]) && Get(b, k) == Some(a[k]);
  }

  lemma ScanKey(ss: seq<State>, es: seq<Event>, table: string, i: nat, leaf: RowKey -> nat, at: RowKey -> nat, m: nat, k: RowKey)
    requires Run(ss, es) && Inv(ss[0]) && i < |es| && es[i] == PinSnapshot && HistoryHeld(ss[i])
    requires m < |ss| && Unended(es, i + 1, m, ss[i].nextSnapshot)
    requires forall q :: i < leaf(q) <= at(q) <= m
    requires k.0 == table
    ensures Get(ScanRows(ss, table, ss[i].visible, leaf, at, m), k) == Get(ss[i].published, k)
  {
    var id, epoch, row, j := ss[i].nextSnapshot, ss[i].visible, Get(ss[i].published, k), leaf(k);
    RunInv(ss, es, i);
    assert HeldFor(ss[i], k);
    PinReads(ss[i], k);
    assert Step(ss[i], es[i], ss[i + 1]) && Live(ss[i + 1], id, epoch);
    RunReads(ss, es, i + 1, j, id, epoch, k, row);
    RunReads(ss, es, j, m, id, epoch, k, row);
    RunInv(ss, es, j);
    ExtraReads(ss[m], epoch, k, row);
    TreeKeysHold(ss, j);
    if k in ss[j].tree {
      PointReadIsStable(ss, es, i, j, at(k), k);
      assert Resolved(ss[at(k)], epoch, k, ss[j].tree[k]) == row;
    }
    hide Run, Inv, Unended, Reads, Walk, HistoryHeld, TreeKeys;
    if k !in ss[j].tree && row.Some? {
      assert Walk(ChainOf(ss[j], k), epoch).Some? by { TreeLacks(ss[j], epoch, k, row); }
    }
  }

  lemma TreeLacks(s: State, epoch: nat, k: RowKey, row: Option<Row>)
    requires Reads(s, epoch, k, row) && k !in s.tree && row.Some?
    ensures Walk(ChainOf(s, k), epoch).Some?
  {
  }

  /** A snapshot pinned at `s` is faithful: every run from there tells it the published rows. */
  ghost predicate Faithful(s: State) {
    forall ss: seq<State>, es: seq<Event>, k: RowKey ::
      Run(ss, es) && ss[0] == Pin(s) && Unended(es, 0, |es|, s.nextSnapshot) ==>
        SnapshotLookup(ss[|es|], s.visible, k, Get(ss[|es|].tree, k)) == Ok(Get(s.published, k))
  }

  /** Without the history one more applied row is enough to mislead the snapshot. */
  lemma LostPin(s: State, k: RowKey)
    requires Inv(s) && !HeldFor(s, k)
    ensures !Faithful(s)
  {
    var p := Pin(s);
    var id, epoch := s.nextSnapshot, s.visible;
    LostLookup(s, k);
    hide Inv, HeldFor, SnapshotLookup;
    if k in s.install.value.todo {
      var q := Apply(p, k);
      var ss, es := [p, q], [ApplyRow(k)];
      assert Step(ss[0], es[0], ss[1]);
      assert Run(ss, es) && Unended(es, 0, |es|, id);
      assert SnapshotLookup(ss[|es|], epoch, k, Get(ss[|es|].tree, k)) != Ok(Get(s.published, k));
    } else {
      var ss, es: seq<Event> := [p], [];
      assert Run(ss, es) && Unended(es, 0, |es|, id);
      assert SnapshotLookup(ss[|es|], epoch, k, Get(ss[|es|].tree, k)) != Ok(Get(s.published, k));
    }
  }

  lemma LostLookup(s: State, k: RowKey)
    requires Inv(s) && !HeldFor(s, k)
    ensures s.install.Some? && k in s.install.value.writes
    ensures var p := Pin(s);
            var q := if k in s.install.value.todo then Apply(p, k) else p;
            SnapshotLookup(q, s.visible, k, Get(q.tree, k)) == Ok(s.install.value.writes[k]) != Ok(Get(s.published, k))
  {
    if k in s.chains {
      assert Newest(s.chains[k], Top(s));
    }
  }

  /** The exact condition: a pin is faithful if and only if no recorded history of an
      install in flight has been collected when it is taken. */
  lemma FaithfulIffHistoryHeld(s: State)
    requires Inv(s)
    ensures Faithful(s) <==> HistoryHeld(s)
  {
    if HistoryHeld(s) {
      forall ss: seq<State>, es: seq<Event>, k: RowKey
        | Run(ss, es) && ss[0] == Pin(s) && Unended(es, 0, |es|, s.nextSnapshot)
        ensures SnapshotLookup(ss[|es|], s.visible, k, Get(ss[|es|].tree, k)) == Ok(Get(s.published, k))
      {
        FaithfulRun(s, ss, es, k);
      }
    } else {
      var k :| !HeldFor(s, k);
      LostPin(s, k);
    }
  }

  lemma FaithfulRun(s: State, ss: seq<State>, es: seq<Event>, k: RowKey)
    requires Inv(s) && HistoryHeld(s) && Run(ss, es) && ss[0] == Pin(s) && Unended(es, 0, |es|, s.nextSnapshot)
    ensures SnapshotLookup(ss[|es|], s.visible, k, Get(ss[|es|].tree, k)) == Ok(Get(s.published, k))
  {
    var row := Get(s.published, k);
    assert HeldFor(s, k);
    PinReads(s, k);
    StepInv(s, PinSnapshot, Pin(s));
    RunReads(ss, es, 0, |es|, s.nextSnapshot, s.visible, k, row);
    RunInv(ss, es, |es|);
    LookupReads(ss[|es|], s.visible, k, row, Get(ss[|es|].tree, k));
  }

  /** Such a pin can happen: with nothing pinned, a collection between record and publish
      drops the history just recorded. */
  lemma LostPinIsReachable(k: RowKey, v: Row) returns (ss: seq<State>, es: seq<Event>)
    ensures Run(ss, es) && Init(ss[0]) && !HistoryHeld(ss[|es|])
  {
    var s0 := State(map[], map[], map[], map[], 1, 1, 0, None, map[]);
    var s1 := s0.(nextEpoch := 2);
    var s2 := Record(s1, 1, map[k := Some(v)]);
    var s3 := Prune(s2, None);
    ss, es := [s0, s1, s2, s3], [AllocEpoch, RecordInstall(1, map[k := Some(v)]), Collect];
    assert IsOldest(s2, None);
    assert Step(ss[0], es[0], ss[1]) && Step(ss[1], es[1], ss[2]) && Step(ss[2], es[2], ss[3]);
    assert !HeldFor(s3, k);
  }

  /** A quiet pin, with no install in flight, is always faithful. */
  lemma QuietPinIsFaithful(s: State)
    requires Inv(s) && s.install.None?
    ensures Faithful(s)
  {
    FaithfulIffHistoryHeld(s);
  }

  // ---------------------------------------------------------------------
  // The buffer in place
  // ---------------------------------------------------------------------

  class VersionBuffer {
    var tree: map<RowKey, Row>
    var committed: map<RowKey, nat>
    var chains: map<RowKey, Chain>
    var snapshots: map<nat, nat>
    var nextSnapshot: nat
    var nextEpoch: nat
    var visible: nat
    var install: Option<Install>
    ghost var published: map<RowKey, Row>

    ghost function View(): State
      reads this
    {
      State(tree, committed, chains, snapshots, nextSnapshot, nextEpoch, visible, install, published)
    }

    constructor (rows: map<RowKey, Row>)
      ensures Init(View()) && tree == rows && fresh(this)
    {
      tree, published := rows, rows;
      committed, chains, snapshots := map[], map[], map[];
      nextSnapshot, nextEpoch, visible, install := 1, 1, 0, None;
    }

    method AllocCommitEpoch() returns (e: nat)
      modifies this
      ensures Step(old(View()), AllocEpoch, View()) && e == old(nextEpoch)
    {
      e := nextEpoch;
      nextEpoch := nextEpoch + 1;
    }

    /** Record all superseded states of a commit under one write lock. */
    method RecordCommitBatch(writes: map<RowKey, Option<Row>>, epoch: nat)
      requires install.None? && visible < epoch < nextEpoch
      modifies this
      ensures Step(old(View()), RecordInstall(epoch, writes), View())
    {
      ghost var s := View();
      var left := writes.Keys;
      PartStart(s, epoch, writes);
      PartEnd(s, epoch, writes);
      hide PartChains, PartEpochs, Record;
      assert writes.Keys - left == {};
      while left != {}
        invariant left <= writes.Keys && View() == s.(chains := chains, committed := committed)
        invariant chains == PartChains(s, epoch, writes, writes.Keys - left)
        invariant committed == PartEpochs(s, epoch, writes, writes.Keys - left)
        decreases left
      {
        var k :| k in left;
        PartChainsNext(s, epoch, writes, writes.Keys - left, k);
        PartEpochsNext(s, epoch, writes, writes.Keys - left, k);
        assert writes.Keys - left + {k} == writes.Keys - (left - {k});
        left := left - {k};
        var prev := if k in tree then Some(tree[k]) else None;
        if prev != writes[k] {
          chains := chains[k := [Version(epoch, prev)] + if k in chains then chains[k] else []];
          committed := committed[k := epoch];
        }
      }
      assert writes.Keys - left == writes.Keys;
      install := Some(Install(epoch, writes, writes.Keys));
      RecordShape(s, epoch, writes);
    }

    method ApplyRaw(k: RowKey)
      requires install.Some? && k in install.value.todo && k in install.value.writes
      modifies this
      ensures Step(old(View()), ApplyRow(k), View())
    {
      var i := install.value;
      tree := match i.writes[k] case Some(row) => tree[k := row] case None => tree - {k};
      install := Some(i.(todo := i.todo - {k}));
    }

    method PublishInstall()
      requires install.Some? && install.value.todo == {}
      modifies this
      ensures Step(old(View()), PublishEpoch, View())
    {
      visible := install.value.epoch;
      install := None;
      published := tree;
    }

    /** The install section of a commit: record, apply row by row, publish, collect. It is
        a run of the steps above, so everything said of runs holds of it. */
    method CommitInstall(writes: map<RowKey, Option<Row>>, epoch: nat) returns (ghost ss: seq<State>, ghost es: seq<Event>)
      requires Inv(View()) && install.None? && visible < epoch < nextEpoch
      modifies this
      ensures Run(ss, es) && ss[0] == old(View()) && ss[|es|] == View()
      ensures Inv(View()) && install.None? && visible == epoch && snapshots == old(snapshots) && published == tree
      ensures forall k :: Get(tree, k) == if k in writes then writes[k] else Get(old(tree), k)
    {
      hide Inv, Record, Apply, Publish, Gc;
      ss, es := [View()], [];
      ghost var s := View();
      RecordCommitBatch(writes, epoch);
      StepInv(s, RecordInstall(epoch, writes), View());
      RecordFrame(s, epoch, writes);
      RunSnoc(ss, es, RecordInstall(epoch, writes), View());
      ss, es := ss + [View()], es + [RecordInstall(epoch, writes)];
      while install.value.todo != {}
        invariant Run(ss, es) && ss[0] == s && ss[|es|] == View() && Inv(View())
        invariant install.Some? && install.value.epoch == epoch && install.value.writes == writes
        invariant install.value.todo <= writes.Keys && snapshots == s.snapshots && published == s.tree
        decreases install.value.todo
      {
        ghost var v := View();
        var k :| k in install.value.todo;
        ApplyRaw(k);
        StepInv(v, ApplyRow(k), View());
        ApplyFrame(v, k);
        RunSnoc(ss, es, ApplyRow(k), View());
        ss, es := ss + [View()], es + [ApplyRow(k)];
      }
      ghost var v := View();
      InstallDone(v);
      PublishInstall();
      StepInv(v, PublishEpoch, View());
      PublishFrame(v);
      RunSnoc(ss, es, PublishEpoch, View());
      ss, es := ss + [View()], es + [PublishEpoch];
      ghost var w := View();
      GcLocked();
      StepInv(w, Collect, View());
      GcFrame(w, View());
      RunSnoc(ss, es, Collect, View());
      ss, es := ss + [View()], es + [Collect];
    }

    method SnapshotBegin() returns (id: nat, epoch: nat)
      modifies this
      ensures Step(old(View()), PinSnapshot, View()) && id == old(nextSnapshot) && epoch == visible == old(visible)
      ensures snapshots == old(snapshots)[id := epoch] && chains == old(chains) && tree == old(tree)
    {
      id, epoch := nextSnapshot, visible;
      snapshots := snapshots[id := epoch];
      nextSnapshot := nextSnapshot + 1;
    }

    method SnapshotEnd(id: nat)
      requires id in snapshots
      modifies this
      ensures Step(old(View()), UnpinSnapshot(id), View())
      ensures snapshots == old(snapshots) - {id} && tree == old(tree) && nextSnapshot == old(nextSnapshot)
    {
      snapshots := snapshots - {id};
      GcLocked();
    }

    /** Smallest pinned read epoch. */
    method Oldest() returns (o: Option<nat>)
      ensures IsOldest(View(), o)
    {
      o := None;
      var left := snapshots.Keys;
      while left != {}
        invariant left <= snapshots.Keys
        invariant o.None? ==> left == snapshots.Keys
        invariant o.Some? ==> exists id :: id in snapshots && snapshots[id] == o.value
        invariant o.Some? ==> forall id :: id in snapshots.Keys - left ==> o.value <= snapshots[id]
        decreases left
      {
        var id :| id in left;
        left := left - {id};
        if o.None? || snapshots[id] < o.value {
          o := Some(snapshots[id]);
        }
      }
      assert o.None? ==> snapshots == map[];
    }

    /** Drop the history no live reader can consult. */
    method GcLocked()
      modifies this
      ensures Gc(old(View()), View()) && snapshots == old(snapshots) && tree == old(tree)
    {
      ghost var s := View();
      var oldest := Oldest();
      match oldest {
        case None =>
          chains, committed := map[], map[];
        case Some(o) =>
          chains := RetainChains(chains, o);
          committed := map k | k in committed && committed[k] > o :: committed[k];
      }
      assert View() == Prune(s, oldest);
    }

    static method RetainChains(chains: map<RowKey, Chain>, o: nat) returns (keep: map<RowKey, Chain>)
      ensures keep == map k | k in chains && Retain(chains[k], o) != [] :: Retain(chains[k], o)
    {
      keep := map[];
      var left := chains.Keys;
      while left != {}
        invariant left <= chains.Keys
        invariant forall k :: k in keep <==> k in chains.Keys - left && Retain(chains[k], o) != []
        invariant forall k :: k in keep ==> keep[k] == Retain(chains[k], o)
        decreases left
      {
        var k :| k in left;
        left := left - {k};
        var c := RetainNewer(chains[k], o);
        if c != [] {
          keep := keep[k := c];
        }
      }
    }

    static method RetainNewer(chain: Chain, o: nat) returns (c: Chain)
      ensures c == Retain(chain, o)
    {
      c := [];
      assert chain[..0] == [];
      for i := 0 to |chain|
        invariant c == Retain(chain[..i], o)
      {
        RetainSnoc(chain[..i], chain[i], o);
        assert chain[..i + 1] == chain[..i] + [chain[i]];
        if chain[i].until > o {
          c := c + [chain[i]];
        }
      }
      assert chain[..|chain|] == chain;
    }

    /** The newest-first walk shared by lookups and scans. */
    static method WalkChain(chain: Chain, epoch: nat) returns (r: Option<Option<Row>>)
      ensures r == Walk(chain, epoch)
    {
      r := None;
      var i := 0;
      while i < |chain|
        invariant 0 <= i <= |chain|
        invariant Walk(chain, epoch) == match Walk(chain[i..], epoch) case Some(x) => Some(x) case None => r
      {
        assert chain[i..][0] == chain[i] && chain[i..][1..] == chain[i + 1..];
        if chain[i].until > epoch {
          r := Some(chain[i].row);
          i := i + 1;
        } else {
          return;
        }
      }
    }

    method Lookup(epoch: nat, k: RowKey, current: Option<Row>) returns (r: Lookup)
      ensures r == SnapshotLookup(View(), epoch, k, current)
    {
      if (if k in committed then committed[k] else 0) <= epoch {
        return Ok(current);
      }
      if k in chains {
        var found := WalkChain(chains[k], epoch);
        if found.Some? {
          return Ok(found.value);
        }
      }
      return HistoryMissing;
    }

    method Extra(epoch: nat, table: string, present: set<RowKey>) returns (m: map<RowKey, Row>)
      ensures m == ScanExtra(View(), epoch, table, present)
    {
      m := map[];
      var left := chains.Keys;
      while left != {}
        invariant left <= chains.Keys
        invariant forall k :: k in m <==> k in chains.Keys - left && k.0 == table && k !in present && ExtraRow(View(), epoch, k).Some?
        invariant forall k :: k in m ==> Some(m[k]) == ExtraRow(View(), epoch, k)
        decreases left
      {
        var k :| k in left;
        left := left - {k};
        if k.0 != table || k in present {
          continue;
        }
        var found := WalkChain(chains[k], epoch);
        if found.Some? && found.value.Some? {
          m := m[k := found.value.value];
        }
      }
      var all := ScanExtra(View(), epoch, table, present);
      assert forall k :: k in m <==> k in all;
      assert forall k :: k in m ==> m[k] == all[k];
    }
  }

  lemma {:induction false} RetainSnoc(chain: Chain, v: Version, o: nat)
    ensures Retain(chain + [v], o) == Retain(chain, o) + if v.until > o then [v] else []
  {
    if chain == [] {
      assert chain + [v] == [v] && [v][1..] == [];
    } else {
      var all, head: Chain, tail: Chain := chain + [v], if chain[0].until > o then [chain[0]] else [], if v.until > o then [v] else [];
      assert all[0] == chain[0] && all[1..] == chain[1..] + [v];
      assert Retain(all, o) == head + Retain(chain[1..] + [v], o) && Retain(chain, o) == head + Retain(chain[1..], o);
      RetainSnoc(chain[1..], v, o);
      hide Retain;
      assert head + (Retain(chain[1..], o) + tail) == (head + Retain(chain[1..], o)) + tail;
    }
  }

  // The chains and epochs after the writes in `done` were recorded.
  ghost function PartChains(s: State, epoch: nat, writes: map<RowKey, Option<Row>>, done: set<RowKey>): map<RowKey, Chain> {
    map k | k in s.chains.Keys + done && (k in s.chains || Recorded(s, writes, k)) ::
      if k in done then RecordedChain(s, epoch, writes, k) else ChainOf(s, k)
  }

  ghost function PartEpochs(s: State, epoch: nat, writes: map<RowKey, Option<Row>>, done: set<RowKey>): map<RowKey, nat> {
    map k | k in s.committed.Keys + done && (k in s.committed || Recorded(s, writes, k)) ::
      if k in done && Recorded(s, writes, k) then epoch else s.committed[k]
  }

  lemma PartStart(s: State, epoch: nat, writes: map<RowKey, Option<Row>>)
    ensures PartChains(s, epoch, writes, {}) == s.chains && PartEpochs(s, epoch, writes, {}) == s.committed
  {
  }

  lemma PartEnd(s: State, epoch: nat, writes: map<RowKey, Option<Row>>)
    ensures PartChains(s, epoch, writes, writes.Keys) == Record(s, epoch, writes).chains
    ensures PartEpochs(s, epoch, writes, writes.Keys) == Record(s, epoch, writes).committed
  {
    hide RecordedChain;
    var a, b := PartChains(s, epoch, writes, writes.Keys), Record(s, epoch, writes).chains;
    assert a.Keys == b.Keys;
    assert forall k :: k in a && k !in writes ==> RecordedChain(s, epoch, writes, k) == ChainOf(s, k) by {
      PartUnwritten(s, epoch, writes);
    }
    assert forall k :: k in a ==> a[k] == b[k];
  }

  lemma PartUnwritten(s: State, epoch: nat, writes: map<RowKey, Option<Row>>)
    ensures forall k :: k !in writes ==> RecordedChain(s, epoch, writes, k) == ChainOf(s, k)
  {
  }

  lemma PartChainsNext(s: State, epoch: nat, writes: map<RowKey, Option<Row>>, done: set<RowKey>, k: RowKey)
    requires k in writes && k !in done
    ensures PartChains(s, epoch, writes, done + {k}) ==
            if Get(s.tree, k) != writes[k]
            then PartChains(s, epoch, writes, done)[k := [Version(epoch, Get(s.tree, k))] + ChainOf(s, k)]
            else PartChains(s, epoch, writes, done)
    ensures k in PartChains(s, epoch, writes, done) <==> k in s.chains
    ensures k in s.chains ==> PartChains(s, epoch, writes, done)[k] == s.chains[k]
  {
    var a, b := PartChains(s, epoch, writes, done), PartChains(s, epoch, writes, done + {k});
    assert RecordedChain(s, epoch, writes, k) ==
           if Get(s.tree, k) != writes[k] then [Version(epoch, Get(s.tree, k))] + ChainOf(s, k) else ChainOf(s, k);
    hide RecordedChain;
    assert forall q :: q != k ==> (q in b <==> q in a);
    assert forall q :: q != k && q in b ==> b[q] == a[q];
    if Recorded(s, writes, k) {
      assert b.Keys == a.Keys + {k};
    } else {
      assert b.Keys == a.Keys;
    }
  }

  lemma PartEpochsNext(s: State, epoch: nat, writes: map<RowKey, Option<Row>>, done: set<RowKey>, k: RowKey)
    requires k in writes && k !in done
    ensures PartEpochs(s, epoch, writes, done + {k}) ==
            if Get(s.tree, k) != writes[k] then PartEpochs(s, epoch, writes, done)[k := epoch]
            else PartEpochs(s, epoch, writes, done)
  {
    var a, b := PartEpochs(s, epoch, writes, done), PartEpochs(s, epoch, writes, done + {k});
    assert forall q :: q != k ==> (q in b <==> q in a);
    assert forall q :: q != k && q in b ==> b[q] == a[q];
  }

  lemma RunSnoc(ss: seq<State>, es: seq<Event>, e: Event, s': State)
    requires Run(ss, es) && Step(ss[|es|], e, s')
    ensures Run(ss + [s'], es + [e])
  {
    hide Step;
    var tt, ee := ss + [s'], es + [e];
    forall i | 0 <= i < |ee|
      ensures Step(tt[i], ee[i], tt[i + 1])
    {
      if i < |es| {
        assert Step(ss[i], es[i], ss[i + 1]);
      }
    }
  }

  lemma RecordShape(s: State, epoch: nat, writes: map<RowKey, Option<Row>>)
    ensures var t := Record(s, epoch, writes);
            t == s.(chains := t.chains, committed := t.committed, install := Some(Install(epoch, writes, writes.Keys)))
  {
  }

  lemma RecordFrame(s: State, epoch: nat, writes: map<RowKey, Option<Row>>)
    requires Inv(s) && s.install.None?
    ensures var t := Record(s, epoch, writes);
            && t.install == Some(Install(epoch, writes, writes.Keys)) && t.snapshots == s.snapshots && t.published == s.tree
  {
  }

  lemma ApplyFrame(s: State, k: RowKey)
    requires s.install.Some? && k in s.install.value.todo && k in s.install.value.writes
    ensures var t := Apply(s, k);
            && t.install == Some(s.install.value.(todo := s.install.value.todo - {k}))
            && t.snapshots == s.snapshots && t.published == s.published
  {
  }

  lemma PublishFrame(s: State)
    requires s.install.Some?
    ensures var t := Publish(s);
            t.snapshots == s.snapshots && t.tree == s.tree && t.install.None? && t.visible == s.install.value.epoch
  {
  }

  lemma GcFrame(s: State, t: State)
    requires Gc(s, t)
    ensures t.snapshots == s.snapshots && t.tree == s.tree && t.install == s.install && t.visible == s.visible
  {
  }

  /** When every row is applied the trees hold the writes over the published state. */
  lemma InstallDone(s: State)
    requires Inv(s) && s.install.Some? && s.install.value.todo == {}
    ensures forall k :: Get(s.tree, k) ==
              if k in s.install.value.writes then s.install.value.writes[k] else Get(s.published, k)
  {
  }
}
