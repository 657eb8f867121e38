/** The saturating reference counter: the lock version as the atomic specification, and the
    compare-and-swap version as interleaved steps of any number of threads. */
module Refcount {

  const MAX: nat := 0xFFFF_FFFF

  datatype Op = Inc | Dec

  datatype Return = Void | IsZero(b: bool) | Aborted

  // ---- The lock version ----

  datatype Outcome = Outcome(count: nat, ret: Return)

  function LockStep(count: nat, op: Op): Outcome {
    match op
    case Inc => Outcome(if count < MAX then count + 1 else count, Void)
    case Dec =>
      if count == 0 then Outcome(0, Aborted)
      else
        var left := if count < MAX then count - 1 else count;
        Outcome(left, IsZero(left == 0))
  }

  /** The counter under its global lock: each method is one critical section. */
  class LockCounter {
    var count: nat

    constructor (n: nat)
      ensures count == n
    {
      count := n;
    }

    method Increment()
      modifies this
      ensures Outcome(count, Void) == LockStep(old(count), Inc)
    {
      if count < MAX {
        count := count + 1;
      }
    }

    /** `aborted` stands for the process abort. */
    method DecAndTestZero() returns (ret: bool, aborted: bool)
      modifies this
      ensures LockStep(old(count), Dec) == Outcome(count, if aborted then Aborted else IsZero(ret))
    {
      if count == 0 {
        return false, true;
      }
      if count < MAX {
        count := count - 1;
      }
      return count == 0, false;
    }
  }

  // ---- The compare-and-swap version ----

  /** Where a thread stands: outside, before the load, at the head of its loop with the value it
      last saw, or after its successful exchange. */
  datatype Local =
    | Idle
    | Started(op: Op)
    | Looping(op: Op, expected: nat)
    | Exchanged(op: Op, ret: Return)

  datatype State = State(count: nat, threads: seq<Local>)

  /** A weak exchange may fail spuriously. */
  datatype Action =
    | Invoke(t: nat, op: Op)
    | Load(t: nat)
    | Exchange(t: nat, spurious: bool)
    | Respond(t: nat)

  /** The values at which the loop of an operation stops without an exchange, and its result. */
  function StopsAt(op: Op, seen: nat): (r: Return)
    requires Stops(op, seen)
  {
    match op
    case Inc => Void
    case Dec => if seen == 0 then Aborted else IsZero(false)
  }

  predicate Stops(op: Op, seen: nat) {
    seen == MAX || (op == Dec && seen == 0)
  }

  function NewValue(op: Op, expected: nat): nat
    requires !Stops(op, expected)
  {
    match op
    case Inc => expected + 1
    case Dec => if expected > 0 then expected - 1 else 0
  }

  function ExchangeResult(op: Op, expected: nat): Return
    requires !Stops(op, expected)
  {
    match op
    case Inc => Void
    case Dec => IsZero(NewValue(op, expected) == 0)
  }

  /** The result a thread is about to return, once it is decided. */
  predicate Decided(l: Local) {
    match l
    case Exchanged(_, _) => true
    case Looping(op, e) => Stops(op, e)
    case _ => false
  }

  function Decision(l: Local): Return
    requires Decided(l)
  {
    match l
    case Exchanged(_, r) => r
    case Looping(op, e) => StopsAt(op, e)
  }

  predicate Enabled(s: State, a: Action) {
    a.t < |s.threads| &&
    var l := s.threads[a.t];
    match a
    case Invoke(_, _) => l.Idle?
    case Load(_) => l.Started?
    case Exchange(_, _) => l.Looping? && !Stops(l.op, l.expected)
    // abort never returns
    case Respond(_) => Decided(l) && Decision(l) != Aborted
  }

  predicate Succeeds(s: State, a: Action)
    requires Enabled(s, a) && a.Exchange?
  {
    s.count == s.threads[a.t].expected && !a.spurious
  }

  function Step(s: State, a: Action): State
    requires Enabled(s, a)
  {
    var l := s.threads[a.t];
    match a
    case Invoke(t, op) => s.(threads := s.threads[t := Started(op)])
    case Load(t) => s.(threads := s.threads[t := Looping(l.op, s.count)])
    case Exchange(t, _) =>
      if Succeeds(s, a) then
        State(NewValue(l.op, l.expected), s.threads[t := Exchanged(l.op, ExchangeResult(l.op, l.expected))])
      else s.(threads := s.threads[t := Looping(l.op, s.count)])
    case Respond(t) => s.(threads := s.threads[t := Idle])
  }

  // ---- Runs ----

  predicate Initial(s: State) {
    s.count <= MAX && forall i :: 0 <= i < |s.threads| ==> s.threads[i] == Idle
  }

  predicate IsRun(s: State, run: seq<Action>)
    decreases |run|, 0
  {
    if run == [] then true
    else IsRun(s, run[..|run| - 1]) && Enabled(After(s, run[..|run| - 1]), run[|run| - 1])
  }

  function After(s: State, run: seq<Action>): State
    requires IsRun(s, run)
    decreases |run|, 1
  {
    if run == [] then s else Step(After(s, run[..|run| - 1]), run[|run| - 1])
  }

  // ---- Linearization ----

  /** The moment an operation takes effect: its position in the run, who, what, and the result. */
  datatype Commit = Commit(at: nat, t: nat, op: Op, ret: Return)

  /** Does the action commit its thread's operation? A successful exchange does, and so does
      seeing a value at which the loop stops. */
  function Commits(s: State, a: Action): (r: seq<(Op, Return)>)
    requires Enabled(s, a)
  {
    var l := s.threads[a.t];
    match a
    case Load(_) => if Stops(l.op, s.count) then [(l.op, StopsAt(l.op, s.count))] else []
    case Exchange(_, _) =>
      if Succeeds(s, a) then [(l.op, ExchangeResult(l.op, l.expected))]
      else if Stops(l.op, s.count) then [(l.op, StopsAt(l.op, s.count))]
      else []
    case _ => []
  }

  /** All commits of a run, in order. */
  function Linearization(s: State, run: seq<Action>): seq<Commit>
    requires IsRun(s, run)
  {
    if run == [] then []
    else
      var n := |run| - 1;
      var c := Commits(After(s, run[..n]), run[n]);
      Linearization(s, run[..n]) + if c == [] then [] else [Commit(n, run[n].t, c[0].0, c[0].1)]
  }

  /** The count after running the operations, in this order, under the lock. */
  function LockCount(first: nat, lin: seq<Commit>): nat {
    if lin == [] then first else LockStep(LockCount(first, lin[..|lin| - 1]), lin[|lin| - 1].op).count
  }

  /** The lock version gives each of these operations its recorded result. */
  predicate LockReturns(first: nat, lin: seq<Commit>) {
    lin != [] ==>
      var c := lin[|lin| - 1];
      LockReturns(first, lin[..|lin| - 1]) && LockStep(LockCount(first, lin[..|lin| - 1]), c.op).ret == c.ret
  }

  lemma CommitIsLockStep(s: State, a: Action)
    requires Enabled(s, a) && s.count <= MAX
    ensures Step(s, a).count <= MAX && |Commits(s, a)| <= 1
    ensures var c := Commits(s, a);
      if c == [] then Step(s, a).count == s.count
      else LockStep(s.count, c[0].0) == Outcome(Step(s, a).count, c[0].1)
  {
  }

  /** Every interleaving has the results and the final count of the lock version run in the
      order of the commits. */
  lemma {:induction false} RefinesLock(s: State, run: seq<Action>)
    requires Initial(s) && IsRun(s, run)
    ensures After(s, run).count <= MAX
    ensures LockReturns(s.count, Linearization(s, run))
    ensures LockCount(s.count, Linearization(s, run)) == After(s, run).count
  {
    if run != [] {
      var n := |run| - 1;
      RefinesLock(s, run[..n]);
      var before := After(s, run[..n]);
      CommitIsLockStep(before, run[n]);
      var c := Commits(before, run[n]);
      var lin := Linearization(s, run);
      if c != [] {
        assert lin[..|lin| - 1] == Linearization(s, run[..n]);
      } else {
        assert lin == Linearization(s, run[..n]);
      }
    }
  }

  /** What the history so far says of a thread: outside any operation, or inside the one it
      invoked at a position, with the commits it has made since. */
  datatype History = Outside | Inside(op: Op, since: nat, commits: seq<Commit>)

  function HistoryOf(s: State, run: seq<Action>, t: nat): History
    requires IsRun(s, run)
  {
    if run == [] then Outside
    else
      var n := |run| - 1;
      var h := HistoryOf(s, run[..n], t);
      var a := run[n];
      if a.t != t then h
      else match a
        case Invoke(_, op) => Inside(op, n, [])
        case Respond(_) => Outside
        case _ =>
          var c := Commits(After(s, run[..n]), a);
          if h.Inside? && c != [] then h.(commits := h.commits + [Commit(n, t, c[0].0, c[0].1)]) else h
  }

  /** The thread's own state agrees with the history: no commit while undecided, exactly one,
      with the decided result, once decided. */
  ghost predicate Agrees(l: Local, h: History) {
    match l
    case Idle => h == Outside
    case Started(op) => h.Inside? && h.op == op && h.commits == []
    case Looping(op, _) => h.Inside? && h.op == op && if Decided(l) then OneCommit(h, Decision(l)) else h.commits == []
    case Exchanged(op, ret) => h.Inside? && h.op == op && OneCommit(h, ret)
  }

  ghost predicate OneCommit(h: History, ret: Return)
    requires h.Inside?
  {
    |h.commits| == 1 && h.commits[0].op == h.op && h.commits[0].ret == ret
  }

  lemma {:induction false} HistoryAgrees(s: State, run: seq<Action>, t: nat)
    requires Initial(s) && IsRun(s, run) && t < |s.threads|
    ensures |After(s, run).threads| == |s.threads|
    ensures Agrees(After(s, run).threads[t], HistoryOf(s, run, t))
  {
    if run != [] {
      HistoryAgrees(s, run[..|run| - 1], t);
    }
  }

  /** The commits of the history are exactly the thread's entries of the linearization since the
      invocation, and the invocation is where it says. */
  lemma {:induction false} HistoryIsComplete(s: State, run: seq<Action>, t: nat)
    requires Initial(s) && IsRun(s, run) && t < |s.threads|
    ensures forall c :: c in Linearization(s, run) ==> c.at < |run|
    ensures var h := HistoryOf(s, run, t);
      h.Inside? ==>
        && h.since < |run| && run[h.since] == Invoke(t, h.op)
        && (forall k :: h.since < k < |run| && run[k].t == t ==> !run[k].Invoke? && !run[k].Respond?)
        && (forall c :: c in h.commits <==> c in Linearization(s, run) && c.t == t && h.since < c.at)
  {
    if run != [] {
      var n := |run| - 1;
      HistoryIsComplete(s, run[..n], t);
      HistoryAgrees(s, run[..n], t);
      var h, h' := HistoryOf(s, run[..n], t), HistoryOf(s, run, t);
      if h'.Inside? && run[n].t == t && !run[n].Invoke? {
        assert h.Inside?;
      }
    }
  }

  /** Linearizability of one completed operation: between its invocation and its response there
      is exactly one commit of its thread, and that commit has its kind and its return value. */
  lemma CompletedOnce(s: State, run: seq<Action>, j: nat) returns (i: nat, c: Commit)
    requires Initial(s) && IsRun(s, run) && j < |run| && run[j].Respond?
    ensures IsRun(s, run[..j]) && Enabled(After(s, run[..j]), run[j])
    ensures i < c.at < j && run[i] == Invoke(run[j].t, c.op)
    ensures forall k :: i < k < j && run[k].t == run[j].t ==> !run[k].Invoke? && !run[k].Respond?
    ensures c in Linearization(s, run) && c.t == run[j].t
    ensures c.ret == Decision(After(s, run[..j]).threads[run[j].t])
    ensures forall d :: d in Linearization(s, run) && d.t == run[j].t && i < d.at < j ==> d == c
  {
    hide Step, Linearization, HistoryOf, Initial, Commits, StopsAt;
    var t := run[j].t;
    PrefixIsRun(s, run, j);
    PrefixIsRun(s, run, j + 1);
    assert run[..j + 1][..j] == run[..j];
    ThreadCount(s, run[..j]);
    HistoryAgrees(s, run[..j], t);
    HistoryIsComplete(s, run[..j], t);
    var h := HistoryOf(s, run[..j], t);
    i, c := h.since, h.commits[0];
    assert c in h.commits;
    PrefixLinearization(s, run, j);
  }

  lemma {:induction false} ThreadCount(s: State, run: seq<Action>)
    requires IsRun(s, run)
    ensures |After(s, run).threads| == |s.threads|
  {
    if run != [] {
      ThreadCount(s, run[..|run| - 1]);
    }
  }

  lemma {:induction false} PrefixIsRun(s: State, run: seq<Action>, j: nat)
    requires IsRun(s, run) && j <= |run|
    ensures IsRun(s, run[..j])
  {
    if j == |run| {
      assert run[..j] == run;
    } else {
      PrefixIsRun(s, run[..|run| - 1], j);
      assert run[..|run| - 1][..j] == run[..j];
    }
  }

  lemma {:induction false} PrefixLinearization(s: State, run: seq<Action>, j: nat)
    requires IsRun(s, run) && j <= |run|
    ensures IsRun(s, run[..j])
    ensures forall c :: c in Linearization(s, run[..j]) <==> c in Linearization(s, run) && c.at < j
  {
    PrefixIsRun(s, run, j);
    if j == |run| {
      assert run[..j] == run;
      CommitsAreInside(s, run);
    } else {
      PrefixLinearization(s, run[..|run| - 1], j);
      assert run[..|run| - 1][..j] == run[..j];
    }
  }

  lemma {:induction false} CommitsAreInside(s: State, run: seq<Action>)
    requires IsRun(s, run)
    ensures forall c :: c in Linearization(s, run) ==> c.at < |run|
    ensures forall a, b :: 0 <= a < b < |Linearization(s, run)| ==>
      Linearization(s, run)[a].at < Linearization(s, run)[b].at
  {
    if run != [] {
      CommitsAreInside(s, run[..|run| - 1]);
    }
  }

  /** The call of a commit: the last invocation of its thread before it, of its kind, not answered
      in between. */
  ghost predicate CallOf(run: seq<Action>, c: Commit, i: nat) {
    && i < c.at < |run| && run[i] == Invoke(c.t, c.op)
    && forall k :: i < k <= c.at && run[k].t == c.t ==> !run[k].Invoke? && !run[k].Respond?
  }

  lemma {:induction false} CommitOrigin(s: State, run: seq<Action>, c: Commit)
    requires IsRun(s, run) && c in Linearization(s, run)
    ensures c.at < |run| && run[c.at].t == c.t && IsRun(s, run[..c.at])
    ensures Enabled(After(s, run[..c.at]), run[c.at])
    ensures Commits(After(s, run[..c.at]), run[c.at]) == [(c.op, c.ret)]
  {
    hide Commits, Step, Enabled;
    var n := |run| - 1;
    if c in Linearization(s, run[..n]) {
      CommitOrigin(s, run[..n], c);
      assert run[..n][..c.at] == run[..c.at];
    } else {
      CommitIsSingle(After(s, run[..n]), run[n]);
    }
  }

  lemma CommitIsSingle(s: State, a: Action)
    requires Enabled(s, a)
    ensures Commits(s, a) == [] || Commits(s, a) == [(Commits(s, a)[0].0, Commits(s, a)[0].1)]
  {
  }

  /** Nothing takes effect that was not called, and no call takes effect twice: every commit of a
      run, responded to or not, belongs to a call of its thread, and is the first since that call. */
  lemma CommitIsCalledOnce(s: State, run: seq<Action>, c: Commit) returns (i: nat)
    requires Initial(s) && IsRun(s, run) && c in Linearization(s, run)
    ensures CallOf(run, c, i)
    ensures forall d :: d in Linearization(s, run) && d.t == c.t && i < d.at <= c.at ==> d == c
  {
    hide Step, Linearization, HistoryOf, IsRun, After, StopsAt;
    CommitOrigin(s, run, c);
    ThreadCount(s, run[..c.at]);
    HistoryAgrees(s, run[..c.at], c.t);
    HistoryIsComplete(s, run[..c.at], c.t);
    PrefixLinearization(s, run, c.at);
    CommitsAreInside(s, run);
    i := HistoryOf(s, run[..c.at], c.t).since;
    assert run[..c.at][i] == run[i];
  }

  /** Operations that do not overlap take effect in real-time order: when one responds at j before
      another is invoked at i, its commit comes earlier in the order that the lock version replays,
      whether the later one, of commit d, ever responds, is pending or aborts. */
  lemma RealTimeOrder(s: State, run: seq<Action>, j: nat, d: Commit, i: nat) returns (x: nat, y: nat, i': nat)
    requires Initial(s) && IsRun(s, run) && j < i && j < |run| && run[j].Respond?
    requires d in Linearization(s, run) && CallOf(run, d, i)
    ensures x < y < |Linearization(s, run)| && Linearization(s, run)[y] == d
    ensures var c := Linearization(s, run)[x];
      && CallOf(run, c, i') && c.t == run[j].t && c.at < j
      && forall k :: i' < k < j && run[k].t == c.t ==> !run[k].Invoke? && !run[k].Respond?
  {
    hide IsRun, After, Enabled, Linearization, Initial;
    var c;
    i', c := CompletedOnce(s, run, j);
    var lin := Linearization(s, run);
    CommitsAreInside(s, run);
    x :| 0 <= x < |lin| && lin[x] == c;
    y :| 0 <= y < |lin| && lin[y] == d;
  }

  /** Saturation is final, in any run: from then on the count stays at the maximum and no
      decrement takes effect with the result true. */
  lemma {:induction false} SaturationIsFinal(s: State, run: seq<Action>, k: nat)
    requires Initial(s) && IsRun(s, run) && k <= |run|
    requires IsRun(s, run[..k]) && After(s, run[..k]).count == MAX
    ensures After(s, run).count == MAX
    ensures forall c :: c in Linearization(s, run) && c.at >= k ==> c.ret != IsZero(true)
  {
    if k == |run| {
      assert run[..k] == run;
      CommitsAreInside(s, run);
    } else {
      var n := |run| - 1;
      assert run[..n][..k] == run[..k];
      SaturationIsFinal(s, run[..n], k);
      CommitIsLockStep(After(s, run[..n]), run[n]);
    }
  }

  // ---- Ownership ----

  function Sum(refs: seq<nat>): nat {
    if refs == [] then 0 else Sum(refs[..|refs| - 1]) + refs[|refs| - 1]
  }

  lemma {:induction false} SumUpdate(refs: seq<nat>, i: nat, v: nat)
    requires i < |refs|
    ensures Sum(refs[i := v]) == Sum(refs) - refs[i] + v
  {
    var n := |refs| - 1;
    if i == n {
      assert refs[i := v][..n] == refs[..n];
    } else {
      SumUpdate(refs[..n], i, v);
      assert refs[i := v][..n] == refs[..n][i := v];
    }
  }

  lemma {:induction false} SumAtLeast(refs: seq<nat>, i: nat)
    requires i < |refs|
    ensures refs[i] <= Sum(refs)
  {
    if i < |refs| - 1 {
      SumAtLeast(refs[..|refs| - 1], i);
    }
  }

  /** The counter together with how many references each thread holds. */
  datatype Owned = Owned(s: State, refs: seq<nat>)

  /** A counter step, or handing a reference from one thread to another. */
  datatype OwnedAction = Count(a: Action) | Give(from: nat, to: nat)

  predicate Busy(l: Local) { !l.Idle? && !Decided(l) }

  /** A thread starts an operation only while it holds a reference, and keeps one until the
      operation has taken effect. */
  predicate Allowed(w: Owned, x: OwnedAction) {
    |w.refs| == |w.s.threads| &&
    match x
    case Count(a) => Enabled(w.s, a) && (a.Invoke? ==> w.refs[a.t] >= 1)
    case Give(from, to) =>
      && from < |w.refs| && to < |w.refs| && from != to
      && w.refs[from] >= if Busy(w.s.threads[from]) then 2 else 1
  }

  /** A committed increment adds a reference to its thread, a committed decrement takes one. */
  function NewRefs(w: Owned, a: Action): seq<nat>
    requires Allowed(w, Count(a))
  {
    var c := Commits(w.s, a);
    if c == [] then w.refs
    else if c[0].0 == Inc then w.refs[a.t := w.refs[a.t] + 1]
    else if w.refs[a.t] > 0 then w.refs[a.t := w.refs[a.t] - 1]
    else w.refs
  }

  function OwnedStep(w: Owned, x: OwnedAction): Owned
    requires Allowed(w, x)
  {
    match x
    case Count(a) => Owned(Step(w.s, a), NewRefs(w, a))
    case Give(from, to) => w.(refs := w.refs[from := w.refs[from] - 1][to := w.refs[to] + 1])
  }

  predicate IsOwnedRun(w: Owned, run: seq<OwnedAction>)
    decreases |run|, 0
  {
    if run == [] then true
    else IsOwnedRun(w, run[..|run| - 1]) && Allowed(OwnedAfter(w, run[..|run| - 1]), run[|run| - 1])
  }

  function OwnedAfter(w: Owned, run: seq<OwnedAction>): Owned
    requires IsOwnedRun(w, run)
    decreases |run|, 1
  {
    if run == [] then w else OwnedStep(OwnedAfter(w, run[..|run| - 1]), run[|run| - 1])
  }

  /** The results that the operations of a run commit to, in order. */
  function Results(w: Owned, run: seq<OwnedAction>): seq<Return>
    requires IsOwnedRun(w, run)
  {
    if run == [] then []
    else
      var n := |run| - 1;
      Results(w, run[..n]) +
      match run[n]
      case Count(a) => (var c := Commits(OwnedAfter(w, run[..n]).s, a); if c == [] then [] else [c[0].1])
      case Give(_, _) => []
  }

  /** Nobody is inside an operation and the count is the number of references held. */
  predicate OwnedInitial(w: Owned) {
    Initial(w.s) && |w.refs| == |w.s.threads| && 1 <= w.s.count && w.s.count == Sum(w.refs)
  }

  /** Every thread inside an uncommitted operation holds a reference; an unsaturated count is the
      number of references. */
  ghost predicate Counted(w: Owned) {
    && |w.refs| == |w.s.threads| && w.s.count <= MAX
    && (forall i :: 0 <= i < |w.refs| && Busy(w.s.threads[i]) ==> w.refs[i] >= 1)
    && (forall i :: 0 <= i < |w.refs| && Decided(w.s.threads[i]) ==> Decision(w.s.threads[i]) != Aborted)
    && (w.s.count < MAX ==> w.s.count == Sum(w.refs))
  }

  lemma GiveKeepsCounted(w: Owned, from: nat, to: nat)
    requires Counted(w) && Allowed(w, Give(from, to))
    ensures Counted(OwnedStep(w, Give(from, to)))
  {
    SumUpdate(w.refs, from, w.refs[from] - 1);
    SumUpdate(w.refs[from := w.refs[from] - 1], to, w.refs[to] + 1);
  }

  lemma CountKeepsCounted(w: Owned, a: Action)
    requires Counted(w) && Allowed(w, Count(a))
    ensures Counted(OwnedStep(w, Count(a)))
  {
    hide LockStep, Sum;
    SumAtLeast(w.refs, a.t);
    SumUpdate(w.refs, a.t, w.refs[a.t] + 1);
    if w.refs[a.t] > 0 {
      SumUpdate(w.refs, a.t, w.refs[a.t] - 1);
    }
  }

  /** What a step of the counter does at the two ends of its range. */
  lemma StepAtTheEnds(w: Owned, a: Action)
    requires Counted(w) && Allowed(w, Count(a))
    ensures w.s.count == MAX ==> Step(w.s, a).count == MAX
    ensures w.s.count == 0 ==> Commits(w.s, a) == []
    ensures Commits(w.s, a) == [] ==> Step(w.s, a).count == w.s.count
    ensures var c := Commits(w.s, a);
      c != [] ==> c[0].1 != Aborted && (c[0].1 == IsZero(true) <==> Step(w.s, a).count == 0)
  {
    SumAtLeast(w.refs, a.t);
    CommitIsLockStep(w.s, a);
  }

  /** In every run in which threads touch the counter only while holding a reference: an
      unsaturated count is the number of references held; the abort is never reached; a decrement
      returns true exactly if the count has reached zero, and then it is the only one and the last
      operation to take effect. */
  lemma {:induction false} OwnershipIsSafe(w: Owned, run: seq<OwnedAction>)
    requires OwnedInitial(w) && IsOwnedRun(w, run)
    ensures Counted(OwnedAfter(w, run))
    ensures Aborted !in Results(w, run)
    ensures var rs := Results(w, run); forall i :: 0 <= i < |rs| - 1 ==> rs[i] != IsZero(true)
    ensures var rs := Results(w, run);
      OwnedAfter(w, run).s.count == 0 <==> rs != [] && rs[|rs| - 1] == IsZero(true)
  {
    hide Step, Commits, Enabled, Sum, Busy, Decided, Allowed, NewRefs, Counted;
    if run == [] {
      StartCounted(w);
    } else {
      var n := |run| - 1;
      OwnershipIsSafe(w, run[..n]);
      var before := OwnedAfter(w, run[..n]);
      match run[n] {
        case Give(from, to) => GiveKeepsCounted(before, from, to);
        case Count(a) =>
          CountKeepsCounted(before, a);
          StepAtTheEnds(before, a);
      }
    }
  }

  lemma StartCounted(w: Owned)
    requires OwnedInitial(w)
    ensures Counted(w)
  {
  }

  // ---- Owned runs are runs ----

  /** The counter steps of an owned run. */
  function Counts(run: seq<OwnedAction>): seq<Action> {
    if run == [] then []
    else
      var n := |run| - 1;
      Counts(run[..n]) + match run[n] { case Count(a) => [a] case Give(_, _) => [] }
  }

  function Returns(lin: seq<Commit>): seq<Return> {
    if lin == [] then [] else Returns(lin[..|lin| - 1]) + [lin[|lin| - 1].ret]
  }

  lemma {:induction false} ReturnsAt(lin: seq<Commit>)
    ensures |Returns(lin)| == |lin| && forall i :: 0 <= i < |lin| ==> Returns(lin)[i] == lin[i].ret
  {
    if lin != [] {
      ReturnsAt(lin[..|lin| - 1]);
    }
  }

  /** Without the hand-overs an owned run is a run with the same state and the same results, so all
      that is proved of runs holds of it. */
  lemma {:induction false} OwnedRunsAreRuns(w: Owned, run: seq<OwnedAction>)
    requires IsOwnedRun(w, run)
    ensures IsRun(w.s, Counts(run)) && After(w.s, Counts(run)) == OwnedAfter(w, run).s
    ensures Returns(Linearization(w.s, Counts(run))) == Results(w, run)
  {
    hide Step, Commits, Enabled, NewRefs;
    if run != [] {
      var n := |run| - 1;
      OwnedRunsAreRuns(w, run[..n]);
      var p := Counts(run[..n]);
      match run[n] {
        case Give(_, _) => assert Counts(run) == p;
        case Count(a) =>
          assert Counts(run) == p + [a] && (p + [a])[..|p|] == p;
          var lin, c := Linearization(w.s, p), Commits(OwnedAfter(w, run[..n]).s, a);
          if c == [] {
            assert Linearization(w.s, p + [a]) == lin;
          } else {
            var full := lin + [Commit(|p|, a.t, c[0].0, c[0].1)];
            assert Linearization(w.s, p + [a]) == full && full[..|lin|] == lin;
          }
      }
    }
  }

  /** What a response of a run returns. */
  function Answer(s: State, run: seq<Action>, j: nat): Return
    requires j < |run| && IsRun(s, run[..j]) && Enabled(After(s, run[..j]), run[j]) && run[j].Respond?
  {
    Decision(After(s, run[..j]).threads[run[j].t])
  }

  /** In an owned run a response returns true only for the very last operation to take effect. */
  lemma TrueIsLast(w: Owned, run: seq<OwnedAction>, j: nat) returns (i: nat, c: Commit)
    requires OwnedInitial(w) && IsOwnedRun(w, run)
    requires j < |Counts(run)| && Counts(run)[j].Respond?
    ensures var p := Counts(run);
      && IsRun(w.s, p) && IsRun(w.s, p[..j]) && Enabled(After(w.s, p[..j]), p[j])
      && Answer(w.s, p, j) != Aborted
      && c in Linearization(w.s, p) && c.t == p[j].t && i < c.at < j
      && (forall k :: i < k < j && p[k].t == p[j].t ==> !p[k].Invoke? && !p[k].Respond?)
      && (Answer(w.s, p, j) == IsZero(true) ==> c == Linearization(w.s, p)[|Linearization(w.s, p)| - 1])
  {
    hide IsRun, After, Enabled, Linearization, Results, IsOwnedRun, OwnedAfter, Counted, Counts, Sum;
    OwnedRunsAreRuns(w, run);
    OwnershipIsSafe(w, run);
    i, c := CompletedOnce(w.s, Counts(run), j);
    var lin := Linearization(w.s, Counts(run));
    ReturnsAt(lin);
    var x :| 0 <= x < |lin| && lin[x] == c;
    assert Results(w, run)[x] == c.ret;
  }

  /** The reference-counted object is released once: of all the calls of an owned run at most one
      returns true, and no call aborts. */
  lemma ReleasedOnce(w: Owned, run: seq<OwnedAction>, j: nat, k: nat)
    requires OwnedInitial(w) && IsOwnedRun(w, run)
    requires var p := Counts(run); j < k < |p| && p[j].Respond? && p[k].Respond?
    ensures var p := Counts(run);
      && IsRun(w.s, p[..j]) && Enabled(After(w.s, p[..j]), p[j])
      && IsRun(w.s, p[..k]) && Enabled(After(w.s, p[..k]), p[k])
      && !(Answer(w.s, p, j) == IsZero(true) && Answer(w.s, p, k) == IsZero(true))
  {
    hide IsRun, After, Enabled, Linearization, OwnedAfter, IsOwnedRun, Counts, OwnedInitial;
    var i, c := TrueIsLast(w, run, j);
    var i', c' := TrueIsLast(w, run, k);
  }
}
