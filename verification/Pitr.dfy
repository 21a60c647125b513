/**
 Point-in-time recovery: selecting whole transactions from archived segments up to a
 target, and the redo that replays a log at open.
 */
module Pitr {
  import opened Bytes

  /** One framed record with its verbatim bytes. */
  datatype Frame =
    | Op(txn: nat, raw: seq<Byte>)
    | Commit(txn: nat, ts: Option<nat>, raw: seq<Byte>)

  type Log = seq<Frame>

  datatype Target = Target(txn: Option<nat>, time: Option<nat>)

  datatype Stats = Stats(
    scanned: nat,
    replayed: nat,             // segments wholly replayed
    txns: nat,
    bytes: nat,
    stoppedTime: Option<nat>,
    stoppedTxn: Option<nat>)

  // ---------------------------------------------------------------------
  // The meaning of a log
  // ---------------------------------------------------------------------

  /** The operations of transaction `t` since its last commit, in log order. */
  function Pending(log: Log, t: nat): Log {
    if log == [] then []
    else
      var init, last := log[..|log| - 1], log[|log| - 1];
      if last.txn != t then Pending(init, t)
      else if last.Commit? then []
      else Pending(init, t) + [last]
  }

  /** The operations a redo applies, in the order it applies them. */
  function Redo(log: Log): Log {
    if log == [] then []
    else
      var init, last := log[..|log| - 1], log[|log| - 1];
      if last.Commit? then Redo(init) + Pending(init, last.txn) else Redo(init)
  }

  /** The selection: each transaction's frames, then its commit, at the commit's place. */
  function Included(log: Log): Log {
    if log == [] then []
    else
      var init, last := log[..|log| - 1], log[|log| - 1];
      if last.Commit? then Included(init) + Pending(init, last.txn) + [last] else Included(init)
  }

  function Commits(log: Log): Log {
    if log == [] then []
    else
      var init, last := log[..|log| - 1], log[|log| - 1];
      if last.Commit? then Commits(init) + [last] else Commits(init)
  }

  function Length(log: Log): nat {
    if log == [] then 0 else Length(log[..|log| - 1]) + |log[|log| - 1].raw|
  }

  predicate Late(f: Frame, target: Target) {
    f.Commit? && target.time.Some? && f.ts.Some? && f.ts.value > target.time.value
  }

  predicate Halts(f: Frame, target: Target) {
    f.Commit? && (target.txn == Some(f.txn) || Late(f, target))
  }

  /** The log just before its first halting commit. */
  function Cut(log: Log, target: Target): Log {
    if log == [] then []
    else
      var init, last := log[..|log| - 1], log[|log| - 1];
      if |Cut(init, target)| < |init| || Halts(last, target) then Cut(init, target) else log
  }

  // ---------------------------------------------------------------------
  // The rewritten log means the same
  // ---------------------------------------------------------------------

  predicate OpsOf(ops: Log, t: nat) { forall i :: 0 <= i < |ops| ==> ops[i].Op? && ops[i].txn == t }

  lemma {:induction false} PendingOps(log: Log, t: nat)
    ensures OpsOf(Pending(log, t), t)
  {
    if log != [] {
      PendingOps(log[..|log| - 1], t);
    }
  }

  lemma AppendOp(log: Log, f: Frame, u: nat)
    requires f.Op?
    ensures Pending(log + [f], u) == Pending(log, u) + if u == f.txn then [f] else []
    ensures Redo(log + [f]) == Redo(log) && Commits(log + [f]) == Commits(log) && Included(log + [f]) == Included(log)
  {
    assert (log + [f])[..|log|] == log;
  }

  /** Operations of one transaction join its pending ones and redo nothing by themselves. */
  lemma {:induction false} AppendOps(log: Log, ops: Log, t: nat, u: nat)
    requires OpsOf(ops, t)
    ensures Pending(log + ops, u) == Pending(log, u) + if u == t then ops else []
    ensures Redo(log + ops) == Redo(log) && Commits(log + ops) == Commits(log) && Included(log + ops) == Included(log)
    decreases |ops|
  {
    hide Redo, Commits, Pending, Included;
    if ops == [] {
      assert log + ops == log;
    } else {
      var init, last := ops[..|ops| - 1], ops[|ops| - 1];
      AppendOps(log, init, t, u);
      AppendOp(log + init, last, u);
      assert log + ops == log + init + [last];
      assert init + [last] == ops;
    }
  }

  lemma AppendCommit(log: Log, c: Frame, u: nat)
    requires c.Commit?
    ensures Pending(log + [c], u) == if u == c.txn then [] else Pending(log, u)
    ensures Redo(log + [c]) == Redo(log) + Pending(log, c.txn) && Commits(log + [c]) == Commits(log) + [c]
  {
    assert (log + [c])[..|log|] == log;
  }

  /** Buffering frames per transaction and emitting them at commit applies the same
      operations in the same order, keeps the commit sequence, and leaves nothing dangling. */
  lemma {:induction false} SelectionKeepsRedo(log: Log, u: nat)
    ensures Redo(Included(log)) == Redo(log) && Commits(Included(log)) == Commits(log)
    ensures Pending(Included(log), u) == []
  {
    if log != [] {
      var init, last := log[..|log| - 1], log[|log| - 1];
      assert log == init + [last];
      hide Redo, Commits, Pending, Included;
      SelectionKeepsRedo(init, u);
      if last.Commit? {
        var t := last.txn;
        SelectionKeepsRedo(init, t);
        var kept, ops := Included(init), Pending(init, t);
        PendingOps(init, t);
        AppendOps(kept, ops, t, t);
        AppendOps(kept, ops, t, u);
        AppendCommit(kept + ops, last, u);
        AppendCommit(init, last, u);
        IncludeCommit(init, last);
      } else {
        AppendOp(init, last, u);
      }
    } else {
      EmptyLog(u);
    }
  }

  lemma EmptyLog(u: nat)
    ensures Redo([]) == [] && Commits([]) == [] && Pending([], u) == [] && Included([]) == []
  {
  }

  /** Selecting again changes nothing. */
  lemma {:induction false} SelectionIsIdempotent(log: Log)
    ensures Included(Included(log)) == Included(log)
  {
    if log != [] {
      var init, last := log[..|log| - 1], log[|log| - 1];
      assert log == init + [last];
      hide Pending, Redo, Commits, Included;
      SelectionIsIdempotent(init);
      if last.Commit? {
        var t := last.txn;
        var kept, ops := Included(init), Pending(init, t);
        PendingOps(init, t);
        SelectionKeepsRedo(init, t);
        AppendOps(kept, ops, t, t);
        IncludeCommit(init, last);
        IncludeCommit(kept + ops, last);
        assert [] + ops == ops;
      } else {
        AppendOp(init, last, 0);
      }
    } else {
      EmptyLog(0);
    }
  }

  lemma IncludeCommit(log: Log, c: Frame)
    requires c.Commit?
    ensures Included(log + [c]) == Included(log) + Pending(log, c.txn) + [c]
  {
    assert (log + [c])[..|log|] == log;
  }

  // ---------------------------------------------------------------------
  // What a redo applies
  // ---------------------------------------------------------------------

  /** The operation at `i` belongs to the transaction that commits at `j`: no commit of that
      transaction lies between. */
  ghost predicate CommittedBy(log: Log, i: nat, j: nat) {
    && i < j < |log| && log[i].Op? && log[j].Commit? && log[i].txn == log[j].txn
    && forall x :: i < x < j && log[x].Commit? ==> log[x].txn != log[i].txn
  }

  /** The operation at `i` of transaction `t` has no commit of it after it. */
  ghost predicate Uncommitted(log: Log, t: nat, i: nat) {
    && i < |log| && log[i].Op? && log[i].txn == t
    && forall x :: i < x < |log| && log[x].Commit? ==> log[x].txn != t
  }

  lemma UncommittedNext(log: Log, f: Frame, t: nat, i: nat)
    ensures Uncommitted(log + [f], t, i) <==>
            if i == |log| then f.Op? && f.txn == t else Uncommitted(log, t, i) && !(f.Commit? && f.txn == t)
  {
    var more := log + [f];
    assert forall x :: 0 <= x < |log| ==> more[x] == log[x];
    assert more[|log|] == f;
  }

  lemma CommittedNext(log: Log, f: Frame, i: nat, j: nat)
    ensures CommittedBy(log + [f], i, j) <==> if j == |log| then f.Commit? && Uncommitted(log, f.txn, i) else CommittedBy(log, i, j)
  {
    var more := log + [f];
    assert forall x :: 0 <= x < |log| ==> more[x] == log[x];
    assert more[|log|] == f;
  }

  lemma {:induction false} PendingIs(log: Log, t: nat) returns (at: seq<nat>)
    ensures |at| == |Pending(log, t)|
    ensures forall n :: 0 <= n < |at| ==> at[n] < |log| && Uncommitted(log, t, at[n]) && Pending(log, t)[n] == log[at[n]]
    ensures forall n, m :: 0 <= n < m < |at| ==> at[n] < at[m]
    ensures forall i: nat :: Uncommitted(log, t, i) ==> i in at
  {
    if log == [] {
      return [];
    }
    var init, last := log[..|log| - 1], log[|log| - 1];
    assert log == init + [last];
    var before := PendingIs(init, t);
    hide Uncommitted, Pending;
    PendingNext(init, last, t);
    forall i: nat
      ensures Uncommitted(log, t, i) <==>
              if i == |init| then last.Op? && last.txn == t else Uncommitted(init, t, i) && !(last.Commit? && last.txn == t)
    {
      UncommittedNext(init, last, t, i);
    }
    if last.txn != t {
      at := before;
    } else if last.Op? {
      at := before + [|init|];
      forall i: nat | Uncommitted(log, t, i) ensures i in at {
        assert i == |init| || i in before;
        assert at[|before|] == |init|;
      }
    } else {
      at := [];
    }
  }

  lemma PendingNext(log: Log, f: Frame, t: nat)
    ensures Pending(log + [f], t) == if f.txn != t then Pending(log, t) else if f.Op? then Pending(log, t) + [f] else []
  {
    if f.Op? {
      AppendOp(log, f, t);
      assert Pending(log, t) + [] == Pending(log, t);
    } else {
      AppendCommit(log, f, t);
    }
  }

  /** A redo applies exactly the operations whose transaction commits after them, each once,
      in the order of the commits and, within a transaction, in log order. */
  lemma {:induction false} RedoIs(log: Log) returns (at: seq<nat>, ends: seq<nat>)
    ensures |at| == |ends| == |Redo(log)|
    ensures forall n :: 0 <= n < |at| ==>
              at[n] < ends[n] < |log| && CommittedBy(log, at[n], ends[n]) && Redo(log)[n] == log[at[n]]
    ensures forall n, m :: 0 <= n < m < |at| ==> ends[n] < ends[m] || (ends[n] == ends[m] && at[n] < at[m])
    ensures forall i: nat, j: nat :: CommittedBy(log, i, j) ==> i in at
  {
    if log == [] {
      return [], [];
    }
    var init, last := log[..|log| - 1], log[|log| - 1];
    assert log == init + [last];
    at, ends := RedoIs(init);
    hide Uncommitted, CommittedBy, Pending;
    forall i: nat, j: nat
      ensures CommittedBy(log, i, j) <==> if j == |init| then last.Commit? && Uncommitted(init, last.txn, i) else CommittedBy(init, i, j)
    {
      CommittedNext(init, last, i, j);
    }
    if last.Commit? {
      var more := PendingIs(init, last.txn);
      at, ends := at + more, ends + seq(|more|, _ => |init|);
    }
  }

  lemma {:induction false} CutIsPrefix(log: Log, target: Target)
    ensures Cut(log, target) <= log
    ensures forall i :: 0 <= i < |Cut(log, target)| ==> !Halts(Cut(log, target)[i], target)
    ensures |Cut(log, target)| < |log| ==> Halts(log[|Cut(log, target)|], target)
  {
    if log != [] {
      var init := log[..|log| - 1];
      CutIsPrefix(init, target);
      assert |Cut(init, target)| == |init| ==> Cut(init, target) == init;
    }
  }

  lemma {:induction false} CommitsFrom(log: Log)
    ensures forall c :: c in Commits(log) <==> c in log && c.Commit?
  {
    if log != [] {
      CommitsFrom(log[..|log| - 1]);
    }
  }

  lemma {:induction false} CommitsPrefix(log: Log, k: nat)
    requires k <= |log|
    ensures Commits(log[..k]) <= Commits(log)
    decreases |log|
  {
    if k < |log| {
      CommitsPrefix(log[..|log| - 1], k);
      assert log[..|log| - 1][..k] == log[..k];
    } else {
      assert log[..k] == log;
    }
  }

  /** The commit may be restored: it is not the target transaction, nor stamped after the
      limit. */
  predicate Allowed(c: Frame, target: Target)
    requires c.Commit?
  {
    target.txn != Some(c.txn) && (target.time.Some? && c.ts.Some? ==> c.ts.value <= target.time.value)
  }

  /** What recovery to a target means: the rewritten log redoes exactly what the archived log
      does before the first commit that is not allowed; its commits are the longest prefix of
      the archived ones that are all allowed. */
  lemma TargetIsMet(log: Log, target: Target)
    ensures var cut := Cut(log, target);
            && cut <= log && (forall f :: f in cut && f.Commit? ==> Allowed(f, target))
            && (|cut| < |log| ==> log[|cut|].Commit? && !Allowed(log[|cut|], target))
    ensures var out := Included(Cut(log, target));
            && Redo(out) == Redo(Cut(log, target)) && Commits(out) <= Commits(log)
            && (forall c :: c in Commits(out) ==> c.Commit? && Allowed(c, target))
            && (|Commits(out)| < |Commits(log)| ==>
                  Commits(log)[|Commits(out)|].Commit? && !Allowed(Commits(log)[|Commits(out)|], target))
  {
    var cut := Cut(log, target);
    CutIsPrefix(log, target);
    SelectionKeepsRedo(cut, 0);
    CommitsPrefix(log, |cut|);
    assert log[..|cut|] == cut;
    CommitsFrom(cut);
    forall c | c in cut
      ensures !Halts(c, target)
    {
      var i :| 0 <= i < |cut| && cut[i] == c;
    }
    if |cut| < |log| {
      NextCommit(log, |cut|);
    }
  }

  /** The commit at `k` comes right after the commits before it. */
  lemma NextCommit(log: Log, k: nat)
    requires k < |log| && log[k].Commit?
    ensures |Commits(log[..k])| < |Commits(log)| && Commits(log)[|Commits(log[..k])|] == log[k]
  {
    assert log[..k + 1] == log[..k] + [log[k]];
    AppendCommit(log[..k], log[k], 0);
    CommitsPrefix(log, k + 1);
  }

  // ---------------------------------------------------------------------
  // The loops
  // ---------------------------------------------------------------------

  function At(pending: map<nat, Log>, t: nat): Log { if t in pending then pending[t] else [] }

  ghost predicate Buffers(pending: map<nat, Log>, log: Log) { forall t :: At(pending, t) == Pending(log, t) }

  lemma BuffersOp(pending: map<nat, Log>, log: Log, f: Frame)
    requires Buffers(pending, log) && f.Op?
    ensures Buffers(pending[f.txn := At(pending, f.txn) + [f]], log + [f])
    ensures Redo(log + [f]) == Redo(log) && Included(log + [f]) == Included(log) && Commits(log + [f]) == Commits(log)
  {
    hide Pending, Redo, Included, Commits;
    AppendOp(log, f, 0);
    forall t: nat ensures At(pending[f.txn := At(pending, f.txn) + [f]], t) == Pending(log + [f], t) {
      AppendOp(log, f, t);
      assert At(pending, t) == Pending(log, t);
    }
  }

  lemma BuffersCommit(pending: map<nat, Log>, log: Log, f: Frame)
    requires Buffers(pending, log) && f.Commit?
    ensures Buffers(pending - {f.txn}, log + [f])
    ensures Redo(log + [f]) == Redo(log) + At(pending, f.txn)
    ensures Included(log + [f]) == Included(log) + At(pending, f.txn) + [f] && Commits(log + [f]) == Commits(log) + [f]
  {
    assert (log + [f])[..|log|] == log;
    forall t ensures At(pending - {f.txn}, t) == Pending(log + [f], t) {
      assert At(pending, t) == Pending(log, t);
    }
  }

  /** Redo at open: buffer per transaction, apply on commit, discard what is left. */
  method RedoLog(log: Log) returns (applied: Log)
    ensures applied == Redo(log)
  {
    applied := [];
    var pending: map<nat, Log> := map[];
    for i := 0 to |log|
      invariant applied == Redo(log[..i]) && Buffers(pending, log[..i])
    {
      assert log[..i + 1] == log[..i] + [log[i]];
      match log[i] {
        case Commit(txn, _, _) =>
          BuffersCommit(pending, log[..i], log[i]);
          if txn in pending {
            applied := applied + pending[txn];
            pending := pending - {txn};
          } else {
            assert pending - {txn} == pending;
          }
        case Op(txn, _) =>
          BuffersOp(pending, log[..i], log[i]);
          pending := pending[txn := At(pending, txn) + [log[i]]];
      }
    }
    assert log[..|log|] == log;
  }

  function Flat(segments: seq<Log>): Log {
    if segments == [] then [] else Flat(segments[..|segments| - 1]) + segments[|segments| - 1]
  }

  /** How many leading segments lie wholly inside a log of `n` frames. */
  function Whole(segments: seq<Log>, n: nat): nat {
    if segments == [] then 0
    else Whole(segments[..|segments| - 1], n) + if |Flat(segments)| <= n then 1 else 0
  }

  lemma LengthSnoc(log: Log, f: Frame)
    ensures Length(log + [f]) == Length(log) + |f.raw|
  {
    assert (log + [f])[..|log|] == log;
  }

  lemma {:induction false} LengthConcat(a: Log, b: Log)
    ensures Length(a + b) == Length(a) + Length(b)
    decreases |b|
  {
    if b == [] {
      assert a + b == a;
    } else {
      LengthConcat(a, b[..|b| - 1]);
      var all := a + b;
      assert all[..|all| - 1] == a + b[..|b| - 1];
    }
  }

  lemma CutGoes(log: Log, f: Frame, target: Target)
    requires Cut(log, target) == log
    ensures Cut(log + [f], target) == if Halts(f, target) then log else log + [f]
  {
    assert (log + [f])[..|log|] == log;
  }

  lemma {:induction false} CutStays(log: Log, more: Log, target: Target)
    requires |Cut(log, target)| < |log|
    ensures Cut(log + more, target) == Cut(log, target)
    decreases |more|
  {
    CutIsPrefix(log, target);
    if more == [] {
      assert log + more == log;
    } else {
      var init := more[..|more| - 1];
      CutStays(log, init, target);
      var all := log + more;
      assert all[..|all| - 1] == log + init;
    }
  }

  /** One segment of the selection loop; `halted` when it met the halting commit. */
  method SelectSegment(ghost before: Log, segment: Log, target: Target, included0: Log, pending0: map<nat, Log>, stats0: Stats)
      returns (included: Log, pending: map<nat, Log>, stats: Stats, halted: bool)
    requires Cut(before, target) == before && included0 == Included(before) && Buffers(pending0, before)
    requires stats0.txns == |Commits(before)| && stats0.bytes == Length(included0)
    ensures halted == (|Cut(before + segment, target)| < |before + segment|)
    ensures included == Included(Cut(before + segment, target))
    ensures stats.txns == |Commits(Cut(before + segment, target))| && stats.bytes == Length(included)
    ensures !halted ==> Buffers(pending, before + segment) && stats.stoppedTxn == stats0.stoppedTxn && stats.stoppedTime == stats0.stoppedTime
    ensures stats.scanned == stats0.scanned && stats.replayed == stats0.replayed
    ensures halted ==> StoppedAt(stats, stats0, (before + segment)[|Cut(before + segment, target)|], target)
  {
    hide Cut, Included, Buffers, Commits, Length;
    included, pending, stats, halted := included0, pending0, stats0, false;
    assert before + segment[..0] == before;
    for i := 0 to |segment|
      invariant !halted && Cut(before + segment[..i], target) == before + segment[..i]
      invariant included == Included(before + segment[..i]) && Buffers(pending, before + segment[..i])
      invariant stats == stats0.(txns := |Commits(before + segment[..i])|, bytes := Length(included))
    {
      var f := segment[i];
      ghost var seen := before + segment[..i];
      assert before + segment[..i + 1] == seen + [f];
      CutGoes(seen, f, target);
      if f.Commit? {
        var late := Late(f, target);
        if target.txn == Some(f.txn) || late {
          ghost var rest := segment[i + 1..];
          assert before + segment == (seen + [f]) + rest;
          CutStays(seen + [f], rest, target);
          assert (before + segment)[|seen|] == f;
          pending := pending - {f.txn};
          halted := true;
          stats := if target.txn == Some(f.txn) then stats.(stoppedTxn := Some(f.txn)) else stats.(stoppedTime := f.ts);
          return;
        }
        BuffersCommit(pending, seen, f);
        var buf := At(pending, f.txn);
        LengthConcat(included, buf);
        LengthSnoc(included + buf, f);
        included := included + buf + [f];
        stats := stats.(bytes := stats.bytes + Length(buf) + |f.raw|, txns := stats.txns + 1);
        pending := pending - {f.txn};
      } else {
        BuffersOp(pending, seen, f);
        pending := pending[f.txn := At(pending, f.txn) + [f]];
      }
    }
    assert segment[..|segment|] == segment;
  }

  /** The halt is recorded as the target transaction when it is that, else as the late time. */
  ghost predicate StoppedAt(stats: Stats, stats0: Stats, f: Frame, target: Target) {
    Halts(f, target) &&
    if target.txn == Some(f.txn)
    then stats.stoppedTxn == Some(f.txn) && stats.stoppedTime == stats0.stoppedTime
    else Late(f, target) && stats.stoppedTime == f.ts && stats.stoppedTxn == stats0.stoppedTxn
  }

  /** The selection over all segments, in replay order. */
  method SelectTransactions(segments: seq<Log>, target: Target) returns (included: Log, stats: Stats)
    ensures included == Included(Cut(Flat(segments), target))
    ensures stats.scanned == |segments| && stats.replayed == Whole(segments, |Cut(Flat(segments), target)|)
    ensures stats.txns == |Commits(included)| && stats.bytes == Length(included)
    ensures stats.stoppedTxn.Some? || stats.stoppedTime.Some? <==> Cut(Flat(segments), target) != Flat(segments)
    ensures stats.stoppedTxn.Some? ==> stats.stoppedTxn == target.txn
    ensures stats.stoppedTime.Some? ==> target.time.Some? && stats.stoppedTime.value > target.time.value
  {
    included, stats := [], Stats(|segments|, 0, 0, 0, None, None);
    var pending: map<nat, Log> := map[];
    for i := 0 to |segments|
      invariant Cut(Flat(segments[..i]), target) == Flat(segments[..i])
      invariant included == Included(Flat(segments[..i])) && Buffers(pending, Flat(segments[..i]))
      invariant stats == Stats(|segments|, i, |Commits(Flat(segments[..i]))|, Length(included), None, None)
      invariant Whole(segments[..i], |Flat(segments[..i])|) == i
    {
      ghost var before := Flat(segments[..i]);
      assert segments[..i + 1][..i] == segments[..i];
      WholeMore(segments[..i], |before|, |before + segments[i]|);
      var halted;
      included, pending, stats, halted := SelectSegment(before, segments[i], target, included, pending, stats);
      if halted {
        ghost var cut := Cut(before + segments[i], target);
        FlatStays(segments, i + 1, target);
        CutIsPrefix(before + segments[i], target);
        CutLonger(before, segments[i], target);
        WholeAt(segments, i, |cut|);
        SelectionKeepsRedo(cut, 0);
        return;
      }
      CutIsPrefix(before + segments[i], target);
      stats := stats.(replayed := stats.replayed + 1);
    }
    assert segments[..|segments|] == segments;
    SelectionKeepsRedo(Flat(segments), 0);
  }

  lemma CutLonger(before: Log, more: Log, target: Target)
    requires Cut(before, target) == before
    ensures |before| <= |Cut(before + more, target)|
    decreases |more|
  {
    if more == [] {
      assert before + more == before;
    } else {
      var init := more[..|more| - 1];
      CutLonger(before, init, target);
      var all := before + more;
      assert all[..|all| - 1] == before + init;
    }
  }

  lemma {:induction false} FlatStays(segments: seq<Log>, k: nat, target: Target)
    requires k <= |segments| && |Cut(Flat(segments[..k]), target)| < |Flat(segments[..k])|
    ensures Cut(Flat(segments), target) == Cut(Flat(segments[..k]), target) && |Cut(Flat(segments), target)| < |Flat(segments)|
    decreases |segments|
  {
    if k < |segments| {
      var init := segments[..|segments| - 1];
      assert init[..k] == segments[..k];
      FlatStays(init, k, target);
      CutStays(Flat(init), segments[|segments| - 1], target);
    } else {
      assert segments[..k] == segments;
    }
  }

  lemma {:induction false} WholeMore(segments: seq<Log>, n: nat, m: nat)
    requires |Flat(segments)| <= n <= m
    ensures Whole(segments, n) == Whole(segments, m) == |segments|
  {
    if segments != [] {
      WholeMore(segments[..|segments| - 1], n, m);
    }
  }

  /** A cut inside segment `i` leaves exactly the `i` segments before it whole. */
  lemma {:induction false} WholeAt(segments: seq<Log>, i: nat, n: nat)
    requires i < |segments| && |Flat(segments[..i])| <= n < |Flat(segments[..i + 1])|
    ensures Whole(segments, n) == i && n < |Flat(segments)|
    decreases |segments|
  {
    var init := segments[..|segments| - 1];
    if i + 1 < |segments| {
      assert init[..i] == segments[..i] && init[..i + 1] == segments[..i + 1];
      WholeAt(init, i, n);
    } else {
      assert segments[..i] == init && segments[..i + 1] == segments;
      WholeMore(init, n, n);
    }
  }
}
