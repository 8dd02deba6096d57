/** The check queue as a state machine: a master and any number of workers, one critical section at a time. */
module CheckQueue {
  import opened Basics

  datatype Check = Check(id: nat, passes: bool)

  /** Where a thread is: outside the loop, with a batch it took, with a batch it has run, or blocked on its
      condition variable, with or without having been notified. */
  datatype Local =
    | Outside
    | Holding(batch: seq<Check>, ok: bool)
    | Finished(batch: seq<Check>, ok: bool)
    | Waiting(notified: bool)

  datatype Result = NoResult | Returned(ok: bool, of: multiset<Check>)

  /** Thread 0 is the master. `added` are the checks added since the last return of `Wait` and `done` those of
      them that were dealt with; `result` is what the last `Wait` returned, and for which checks. */
  datatype State = State(
    threads: seq<Local>, queue: seq<Check>,
    nIdle: int, nTotal: int, nTodo: int, fAllOk: bool,
    added: multiset<Check>, done: multiset<Check>, result: Result)

  // ----- sums over the threads

  function Sum(ts: seq<Local>, f: Local -> nat): nat {
    if ts == [] then 0 else Sum(ts[..|ts| - 1], f) + f(ts[|ts| - 1])
  }

  lemma {:induction false} SumUpdate(ts: seq<Local>, f: Local -> nat, i: nat, l: Local)
    requires i < |ts|
    ensures Sum(ts[i := l], f) == Sum(ts, f) - f(ts[i]) + f(l)
  {
    var n := |ts| - 1;
    if i < n {
      assert ts[i := l][..n] == ts[..n][i := l];
      SumUpdate(ts[..n], f, i, l);
    } else {
      assert ts[i := l][..n] == ts[..n];
    }
  }

  lemma {:induction false} SumPart(ts: seq<Local>, f: Local -> nat, i: nat)
    requires i < |ts|
    ensures f(ts[i]) <= Sum(ts, f)
  {
    if i < |ts| - 1 {
      SumPart(ts[..|ts| - 1], f, i);
    }
  }

  lemma {:induction false} SumPositive(ts: seq<Local>, f: Local -> nat) returns (i: nat)
    requires 0 < Sum(ts, f)
    ensures i < |ts| && 0 < f(ts[i])
  {
    if 0 < f(ts[|ts| - 1]) {
      i := |ts| - 1;
    } else {
      i := SumPositive(ts[..|ts| - 1], f);
    }
  }

  lemma {:induction false} SumSame(ts: seq<Local>, us: seq<Local>, f: Local -> nat)
    requires |ts| == |us| && forall i :: 0 <= i < |ts| ==> f(ts[i]) == f(us[i])
    ensures Sum(ts, f) == Sum(us, f)
  {
    if ts != [] {
      SumSame(ts[..|ts| - 1], us[..|us| - 1], f);
    }
  }

  /** Checks in the hands of a thread. */
  function Batch(l: Local): seq<Check> {
    if l.Holding? || l.Finished? then l.batch else []
  }

  const LOAD: Local -> nat := (l: Local) => |Batch(l)|
  const IDLE: Local -> nat := (l: Local) => if l.Waiting? then 1 else 0
  const INSIDE: Local -> nat := (l: Local) => if l.Outside? then 0 else 1

  /** The checks in the hands of all threads. */
  ghost function Hands(ts: seq<Local>): multiset<Check> {
    if ts == [] then multiset{} else Hands(ts[..|ts| - 1]) + multiset(Batch(ts[|ts| - 1]))
  }

  lemma {:induction false} HandsUpdate(ts: seq<Local>, i: nat, l: Local)
    requires i < |ts|
    ensures Hands(ts[i := l]) + multiset(Batch(ts[i])) == Hands(ts) + multiset(Batch(l))
  {
    var n := |ts| - 1;
    if i < n {
      assert ts[i := l][..n] == ts[..n][i := l];
      HandsUpdate(ts[..n], i, l);
      Exchange(Hands(ts[..n]), Hands(ts[..n][i := l]), multiset(Batch(ts[i])), multiset(Batch(l)),
               multiset(Batch(ts[n])));
    } else {
      assert ts[i := l][..n] == ts[..n];
      Sides(Hands(ts[..n]), multiset(Batch(l)), multiset(Batch(ts[n])));
    }
  }

  lemma {:induction false} HandsSame(ts: seq<Local>, us: seq<Local>)
    requires |ts| == |us| && forall i :: 0 <= i < |ts| ==> Batch(ts[i]) == Batch(us[i])
    ensures Hands(ts) == Hands(us)
  {
    if ts != [] {
      HandsSame(ts[..|ts| - 1], us[..|us| - 1]);
    }
  }

  lemma {:induction false} InHands(ts: seq<Local>, i: nat)
    requires i < |ts|
    ensures multiset(Batch(ts[i])) <= Hands(ts)
  {
    if i < |ts| - 1 {
      InHands(ts[..|ts| - 1], i);
    }
  }

  // ----- the critical sections

  /** How many checks a thread takes. */
  function BatchSize(queued: nat, nTotal: int, nIdle: int, most: nat): (k: nat)
    requires 0 < queued && 0 <= nTotal && 0 <= nIdle
    ensures 1 <= k <= queued
  {
    var share := queued / (nTotal + nIdle + 1);
    ShareFits(queued, nTotal + nIdle + 1);
    var few := if share < most then share else most;
    if few < 1 then 1 else few
  }

  lemma ShareFits(queued: nat, among: nat)
    requires 1 <= among
    ensures queued / among <= queued
  {
  }

  /** The last `k` checks of the queue, the last one first. */
  function Popped(queue: seq<Check>, k: nat): (r: seq<Check>)
    requires k <= |queue|
    ensures |r| == k
  {
    if k == 0 then [] else [queue[|queue| - 1]] + Popped(queue[..|queue| - 1], k - 1)
  }

  lemma {:induction false} PoppedElements(queue: seq<Check>, k: nat)
    requires k <= |queue|
    ensures multiset(queue) == multiset(queue[..|queue| - k]) + multiset(Popped(queue, k))
  {
    hide Popped;
    PoppedStep(queue, k);
    if k == 0 {
      assert queue[..|queue|] == queue;
    } else {
      var n := |queue| - 1;
      var front, last, rest := queue[..n], [queue[n]], Popped(queue[..n], k - 1);
      PoppedElements(front, k - 1);
      Shorter(queue, k);
      Joined(front, last, queue);
      Joined(last, rest, Popped(queue, k));
      Regroup(multiset(queue[..|queue| - k]), multiset(rest), multiset(last));
    }
  }

  lemma Shorter(queue: seq<Check>, k: nat)
    requires 0 < k <= |queue|
    ensures queue[..|queue| - 1][..|queue| - k] == queue[..|queue| - k]
    ensures queue == queue[..|queue| - 1] + [queue[|queue| - 1]]
  {
  }

  lemma PoppedStep(queue: seq<Check>, k: nat)
    requires k <= |queue|
    ensures Popped(queue, k) ==
            if k == 0 then [] else [queue[|queue| - 1]] + Popped(queue[..|queue| - 1], k - 1)
  {
  }

  lemma Joined(a: seq<Check>, b: seq<Check>, c: seq<Check>)
    requires c == a + b
    ensures multiset(c) == multiset(a) + multiset(b)
  {
  }

  lemma Regroup(a: multiset<Check>, b: multiset<Check>, c: multiset<Check>)
    ensures (a + b) + c == a + (c + b)
  {
  }

  /** Running a batch: after the first failure the rest is skipped. */
  function Run(batch: seq<Check>, ok: bool): bool {
    if batch == [] then ok else Run(batch[1..], ok && batch[0].passes)
  }

  /** The head of the loop, with the lock held by thread `i`: return, wait, or take a batch. */
  function LoopHead(s: State, i: nat, most: nat): State
    requires i < |s.threads| && 0 <= s.nTotal && 0 <= s.nIdle
  {
    if s.queue == [] then
      if i == 0 && s.nTodo == 0 then
        s.(threads := s.threads[0 := Outside], nTotal := s.nTotal - 1, fAllOk := true,
           added := multiset{}, done := multiset{}, result := Returned(s.fAllOk, s.added))
      else s.(threads := s.threads[i := Waiting(false)], nIdle := s.nIdle + 1)
    else
      var k := BatchSize(|s.queue|, s.nTotal, s.nIdle, most);
      s.(threads := s.threads[i := Holding(Popped(s.queue, k), s.fAllOk)], queue := s.queue[..|s.queue| - k])
  }

  datatype Action =
    | Add(checks: seq<Check>, woken: nat)
    | Start(i: nat)
    | Execute(i: nat)
    | Finish(i: nat)
    | Wake(i: nat)

  /** When a step can be taken. Only the master adds, and only outside `Wait`. A waiting thread may wake at any
      time, notified or not. */
  predicate Enabled(s: State, a: Action) {
    match a
    case Add(checks, woken) =>
      && s.threads != [] && s.threads[0].Outside?
      && (|checks| == 1 ==>
            || (0 < woken < |s.threads| && s.threads[woken] == Waiting(false))
            || (woken == 0 && forall j :: 0 < j < |s.threads| ==> s.threads[j] != Waiting(false)))
    case Start(i) => i < |s.threads| && s.threads[i].Outside?
    case Execute(i) => i < |s.threads| && s.threads[i].Holding?
    case Finish(i) => i < |s.threads| && s.threads[i].Finished?
    case Wake(i) => i < |s.threads| && s.threads[i].Waiting?
  }

  function Notified(l: Local): Local {
    if l.Waiting? then Waiting(true) else l
  }

  /** `notify_one` or `notify_all` on the workers' condition variable. */
  function WorkersNotified(ts: seq<Local>, count: nat, woken: nat): (us: seq<Local>)
    ensures |us| == |ts|
  {
    seq(|ts|, j requires 0 <= j < |ts| =>
      if 0 < j && (1 < count || (count == 1 && j == woken)) then Notified(ts[j]) else ts[j])
  }

  /** The end of a batch: the counters are updated, and the master is told if that was the last. */
  function CleanedUp(s: State, i: nat): State
    requires i < |s.threads| && s.threads[i].Finished?
  {
    var l := s.threads[i];
    var left := s.nTodo - |l.batch|;
    s.(fAllOk := s.fAllOk && l.ok, nTodo := left, done := s.done + multiset(l.batch),
       threads := (if left == 0 && i != 0 then s.threads[0 := Notified(s.threads[0])] else s.threads)[i := Outside])
  }

  function Done(s: State, a: Action, most: nat): State
    requires Enabled(s, a) && 0 <= s.nTotal && 0 <= s.nIdle && (a.Wake? ==> 0 < s.nIdle)
  {
    match a
    case Add(checks, woken) =>
      s.(queue := s.queue + checks, nTodo := s.nTodo + |checks|, added := s.added + multiset(checks),
         threads := WorkersNotified(s.threads, |checks|, woken))
    case Start(i) => LoopHead(s.(nTotal := s.nTotal + 1, result := if i == 0 then NoResult else s.result), i, most)
    case Execute(i) =>
      s.(threads := s.threads[i := Finished(s.threads[i].batch, Run(s.threads[i].batch, s.threads[i].ok))])
    case Finish(i) => LoopHead(CleanedUp(s, i), i, most)
    case Wake(i) => LoopHead(s.(nIdle := s.nIdle - 1, threads := s.threads[i := Outside]), i, most)
  }

  // ----- the invariant

  ghost predicate AllPass(m: multiset<Check>) {
    forall c :: c in m ==> c.passes
  }

  /** A failure seen by a thread is a failure of a check that was added. */
  ghost predicate Honest(s: State, l: Local) {
    match l
    case Holding(batch, ok) => batch != [] && (!ok ==> !AllPass(s.added))
    case Finished(batch, ok) => batch != [] && (if ok then AllPass(multiset(batch)) else !AllPass(s.added))
    case _ => true
  }

  /** The counters and the verdict, while `ahead` threads are at the head of the loop and count as outside. */
  ghost predicate Counted(s: State, ahead: int) {
    && s.nTodo == |s.queue| + Sum(s.threads, LOAD)
    && s.nIdle == Sum(s.threads, IDLE)
    && s.nTotal == Sum(s.threads, INSIDE) + ahead
  }

  ghost predicate Accounted(s: State) {
    s.added == multiset(s.queue) + Hands(s.threads) + s.done
  }

  ghost predicate Judged(s: State) {
    && (if s.fAllOk then AllPass(s.done) else !AllPass(s.added))
    && (forall i :: 0 <= i < |s.threads| ==> Honest(s, s.threads[i]))
    && (s.result.Returned? ==> (s.result.ok <==> AllPass(s.result.of)))
  }

  /** A master that waits without having been notified waits for something. */
  ghost predicate Awaited(s: State)
    requires s.threads != []
  {
    s.threads[0] == Waiting(false) ==> s.queue == [] && 0 < s.nTodo
  }

  ghost predicate Mid(s: State, i: nat) {
    && i < |s.threads| && s.threads[i] == Outside
    && Counted(s, 1) && Accounted(s) && Judged(s) && (i != 0 ==> Awaited(s))
  }

  ghost predicate Inv(s: State) {
    s.threads != [] && Counted(s, 0) && Accounted(s) && Judged(s) && Awaited(s)
  }

  lemma CountedUpdate(s: State, i: nat, l: Local, s': State, ahead: int)
    requires i < |s.threads| && Counted(s, ahead) && s'.threads == s.threads[i := l]
    requires s'.nTodo == s.nTodo + |s'.queue| - |s.queue| + |Batch(l)| - |Batch(s.threads[i])|
    requires s'.nIdle == s.nIdle + IDLE(l) - IDLE(s.threads[i])
    ensures Counted(s', ahead + (s'.nTotal - s.nTotal) + INSIDE(s.threads[i]) - INSIDE(l))
  {
    hide Sum;
    SumUpdate(s.threads, LOAD, i, l);
    SumUpdate(s.threads, IDLE, i, l);
    SumUpdate(s.threads, INSIDE, i, l);
  }

  /** Changing the batch of one thread changes what is in all hands by just that. */
  lemma AccountedUpdate(s: State, i: nat, l: Local, s': State)
    requires i < |s.threads| && Accounted(s) && s'.threads == s.threads[i := l] && s'.added == s.added
    requires multiset(s'.queue) + s'.done + multiset(Batch(l)) ==
             multiset(s.queue) + s.done + multiset(Batch(s.threads[i]))
    ensures Accounted(s')
  {
    hide Hands;
    HandsUpdate(s.threads, i, l);
    Balance(s.added, multiset(s.queue) + s.done, multiset(s'.queue) + s'.done, Hands(s.threads), Hands(s'.threads),
            multiset(Batch(s.threads[i])), multiset(Batch(l)));
    Sides(multiset(s.queue), Hands(s.threads), s.done);
    Sides(multiset(s'.queue), Hands(s'.threads), s'.done);
  }

  lemma Sides(q: multiset<Check>, h: multiset<Check>, d: multiset<Check>)
    ensures q + h + d == q + d + h
  {
  }

  lemma Balance(all: multiset<Check>, r: multiset<Check>, r': multiset<Check>,
                h: multiset<Check>, h': multiset<Check>, x: multiset<Check>, y: multiset<Check>)
    requires all == r + h && r' + y == r + x && h' + x == h + y
    ensures all == r' + h'
  {
    forall c ensures all[c] == (r' + h')[c] {
      assert (r' + y)[c] == (r + x)[c];
      assert (h' + x)[c] == (h + y)[c];
    }
  }

  lemma {:induction false} NothingInHands(ts: seq<Local>)
    requires Sum(ts, LOAD) == 0
    ensures Hands(ts) == multiset{} && forall i :: 0 <= i < |ts| ==> Batch(ts[i]) == []
  {
    if ts != [] {
      NothingInHands(ts[..|ts| - 1]);
      assert multiset(Batch(ts[|ts| - 1])) == multiset{};
    }
  }

  /** `Wait` returns. */
  lemma ReturnKeeps(s: State, most: nat)
    requires Mid(s, 0) && s.queue == [] && s.nTodo == 0 && 0 <= s.nTotal && 0 <= s.nIdle
    ensures Inv(LoopHead(s, 0, most))
    ensures LoopHead(s, 0, most).result == Returned(AllPass(s.added), s.added)
  {
    var t := LoopHead(s, 0, most);
    NothingInHands(s.threads);
    assert t.threads == s.threads;
    assert s.added == s.done;
    assert Accounted(t);
    forall i | 0 <= i < |t.threads| ensures Honest(t, t.threads[i]) {
      assert Honest(s, s.threads[i]);
    }
  }

  lemma WaitKeeps(s: State, i: nat, most: nat)
    requires Mid(s, i) && s.queue == [] && !(i == 0 && s.nTodo == 0) && 0 <= s.nTotal && 0 <= s.nIdle
    ensures Inv(LoopHead(s, i, most))
  {
    hide Sum;
    hide Hands;
    hide AllPass;
    var t := LoopHead(s, i, most);
    CountedUpdate(s, i, Waiting(false), t, 1);
    AccountedUpdate(s, i, Waiting(false), t);
    forall j | 0 <= j < |t.threads| ensures Honest(t, t.threads[j]) {
      assert Honest(s, s.threads[j]);
    }
  }

  lemma TakeKeeps(s: State, i: nat, most: nat)
    requires Mid(s, i) && s.queue != [] && 0 <= s.nTotal && 0 <= s.nIdle
    ensures Inv(LoopHead(s, i, most))
  {
    hide Sum;
    hide Hands;
    hide AllPass;
    hide Popped;
    var t := LoopHead(s, i, most);
    var k := BatchSize(|s.queue|, s.nTotal, s.nIdle, most);
    var l := Holding(Popped(s.queue, k), s.fAllOk);
    CountedUpdate(s, i, l, t, 1);
    PoppedElements(s.queue, k);
    Sides(multiset(t.queue), multiset(Batch(l)), s.done);
    assert multiset(Batch(s.threads[i])) == multiset{};
    AccountedUpdate(s, i, l, t);
    forall j | 0 <= j < |t.threads| ensures Honest(t, t.threads[j]) {
      assert Honest(s, s.threads[j]);
    }
  }

  lemma HeadKeeps(s: State, i: nat, most: nat)
    requires Mid(s, i) && 0 <= s.nTotal && 0 <= s.nIdle
    ensures Inv(LoopHead(s, i, most))
  {
    hide Mid;
    hide Inv;
    hide LoopHead;
    assert i < |s.threads| by { MidIndex(s, i); }
    if s.queue != [] {
      TakeKeeps(s, i, most);
    } else if i == 0 && s.nTodo == 0 {
      ReturnKeeps(s, most);
    } else {
      WaitKeeps(s, i, most);
    }
  }

  lemma MidIndex(s: State, i: nat)
    requires Mid(s, i)
    ensures i < |s.threads|
  {
  }

  // ----- every step keeps the invariant

  lemma PassSplit(a: multiset<Check>, b: multiset<Check>)
    ensures AllPass(a + b) <==> AllPass(a) && AllPass(b)
  {
    if AllPass(a + b) {
      forall c | c in a ensures c.passes { assert c in a + b; }
      forall c | c in b ensures c.passes { assert c in a + b; }
    }
    if AllPass(a) && AllPass(b) {
      forall c | c in a + b ensures c.passes { assert c in a || c in b; }
    }
  }

  lemma AddKeeps(s: State, checks: seq<Check>, woken: nat, most: nat)
    requires Inv(s) && Enabled(s, Add(checks, woken)) && 0 <= s.nTotal && 0 <= s.nIdle
    ensures Inv(Done(s, Add(checks, woken), most))
  {
    hide Sum;
    hide Hands;
    hide AllPass;
    var t := Done(s, Add(checks, woken), most);
    SumSame(s.threads, t.threads, LOAD);
    SumSame(s.threads, t.threads, IDLE);
    SumSame(s.threads, t.threads, INSIDE);
    HandsSame(s.threads, t.threads);
    Joined(s.queue, checks, t.queue);
    Grown(multiset(s.queue), Hands(s.threads), s.done, multiset(checks));
    PassSplit(s.added, multiset(checks));
    forall i | 0 <= i < |t.threads| ensures Honest(t, t.threads[i]) {
      assert Honest(s, s.threads[i]);
    }
  }

  lemma Grown(q: multiset<Check>, h: multiset<Check>, d: multiset<Check>, x: multiset<Check>)
    ensures (q + h + d) + x == (q + x) + h + d
  {
  }

  lemma StartKeeps(s: State, i: nat, most: nat)
    requires Inv(s) && Enabled(s, Start(i)) && 0 <= s.nTotal && 0 <= s.nIdle
    ensures Inv(Done(s, Start(i), most))
  {
    hide LoopHead;
    var m := s.(nTotal := s.nTotal + 1, result := if i == 0 then NoResult else s.result);
    assert Judged(m) by {
      forall j | 0 <= j < |m.threads| ensures Honest(m, m.threads[j]) {
        assert Honest(s, s.threads[j]);
      }
    }
    HeadKeeps(m, i, most);
  }

  lemma {:induction false} RunMeans(batch: seq<Check>, ok: bool)
    ensures Run(batch, ok) <==> ok && AllPass(multiset(batch))
  {
    if batch != [] {
      RunMeans(batch[1..], ok && batch[0].passes);
      assert batch == [batch[0]] + batch[1..];
      Joined([batch[0]], batch[1..], batch);
      PassSplit(multiset([batch[0]]), multiset(batch[1..]));
      assert AllPass(multiset([batch[0]])) <==> batch[0].passes by {
        assert batch[0] in multiset([batch[0]]);
      }
    } else {
      assert multiset(batch) == multiset{};
    }
  }

  /** A batch in somebody's hands is part of what was added. */
  lemma BatchAdded(s: State, i: nat)
    requires Accounted(s) && i < |s.threads|
    ensures AllPass(s.added) ==> AllPass(multiset(Batch(s.threads[i])))
  {
    InHands(s.threads, i);
    forall c | c in multiset(Batch(s.threads[i])) ensures c in s.added {
      assert c in Hands(s.threads);
    }
  }

  lemma ExecuteKeeps(s: State, i: nat, most: nat)
    requires Inv(s) && Enabled(s, Execute(i)) && 0 <= s.nTotal && 0 <= s.nIdle
    ensures Inv(Done(s, Execute(i), most))
  {
    hide Sum;
    hide Hands;
    hide AllPass;
    var t := Done(s, Execute(i), most);
    var l := t.threads[i];
    CountedUpdate(s, i, l, t, 0);
    AccountedUpdate(s, i, l, t);
    RunMeans(s.threads[i].batch, s.threads[i].ok);
    BatchAdded(s, i);
    forall j | 0 <= j < |t.threads| ensures Honest(t, t.threads[j]) {
      assert Honest(s, s.threads[j]);
    }
  }

  /** Notifying a thread that waits changes no count. */
  lemma NotifyKeeps(s: State, ahead: int)
    requires s.threads != [] && Counted(s, ahead) && Accounted(s) && Judged(s)
    ensures var t := s.(threads := s.threads[0 := Notified(s.threads[0])]);
      Counted(t, ahead) && Accounted(t) && Judged(t)
  {
    hide Sum;
    hide Hands;
    hide AllPass;
    var t := s.(threads := s.threads[0 := Notified(s.threads[0])]);
    CountedUpdate(s, 0, Notified(s.threads[0]), t, ahead);
    AccountedUpdate(s, 0, Notified(s.threads[0]), t);
    forall j | 0 <= j < |t.threads| ensures Honest(t, t.threads[j]) {
      assert Honest(s, s.threads[j]);
    }
  }

  /** The batch of thread `i` is put down and its verdict counted. */
  function PutDown(s: State, i: nat): State
    requires i < |s.threads| && s.threads[i].Finished?
  {
    var l := s.threads[i];
    s.(fAllOk := s.fAllOk && l.ok, nTodo := s.nTodo - |l.batch|, done := s.done + multiset(l.batch),
       threads := s.threads[i := Outside])
  }

  lemma PutDownKeeps(s: State, i: nat)
    requires Inv(s) && i < |s.threads| && s.threads[i].Finished?
    ensures var t := PutDown(s, i); Counted(t, 1) && Accounted(t) && Judged(t) && 0 <= t.nTodo
  {
    hide Sum;
    hide Hands;
    hide AllPass;
    var l, t := s.threads[i], PutDown(s, i);
    CountedUpdate(s, i, Outside, t, 0);
    assert multiset(Batch(Outside)) == multiset{};
    Sides(multiset(s.queue), s.done, multiset(l.batch));
    AccountedUpdate(s, i, Outside, t);
    assert Honest(s, l);
    PassSplit(s.done, multiset(l.batch));
    forall j | 0 <= j < |t.threads| ensures Honest(t, t.threads[j]) {
      assert Honest(s, s.threads[j]);
    }
  }

  lemma FinishKeeps(s: State, i: nat, most: nat)
    requires Inv(s) && Enabled(s, Finish(i)) && 0 <= s.nTotal && 0 <= s.nIdle
    ensures Inv(Done(s, Finish(i), most))
  {
    hide LoopHead;
    hide Counted;
    hide Accounted;
    hide Judged;
    PutDownKeeps(s, i);
    var m := CleanedUp(s, i);
    var t := PutDown(s, i);
    if t.nTodo == 0 && i != 0 {
      NotifyKeeps(t, 1);
      assert m.threads == t.threads[0 := Notified(t.threads[0])];
      assert m == t.(threads := t.threads[0 := Notified(t.threads[0])]);
    } else {
      assert m == t;
    }
    HeadKeeps(m, i, most);
  }

  lemma WakeKeeps(s: State, i: nat, most: nat)
    requires Inv(s) && Enabled(s, Wake(i)) && 0 <= s.nTotal && 0 < s.nIdle
    ensures Inv(Done(s, Wake(i), most))
  {
    hide LoopHead;
    hide Sum;
    hide Hands;
    hide AllPass;
    var m := s.(nIdle := s.nIdle - 1, threads := s.threads[i := Outside]);
    CountedUpdate(s, i, Outside, m, 0);
    AccountedUpdate(s, i, Outside, m);
    forall j | 0 <= j < |m.threads| ensures Honest(m, m.threads[j]) {
      assert Honest(s, s.threads[j]);
    }
    HeadKeeps(m, i, most);
  }

  /** The counters are never negative, so no step can underflow. */
  lemma CountersInRange(s: State, a: Action)
    requires Inv(s) && Enabled(s, a)
    ensures 0 <= s.nTotal && 0 <= s.nIdle && 0 <= s.nTodo
    ensures a.Wake? ==> 0 < s.nIdle
    ensures a.Finish? ==> |s.threads[a.i].batch| <= s.nTodo
  {
    hide Hands;
    hide AllPass;
    if a.Wake? {
      SumPart(s.threads, IDLE, a.i);
    }
    if a.Finish? {
      SumPart(s.threads, LOAD, a.i);
    }
  }

  /** Every step of every thread keeps the invariant. */
  lemma StepKeeps(s: State, a: Action, most: nat)
    requires Inv(s) && Enabled(s, a)
    ensures 0 <= s.nTotal && 0 <= s.nIdle && (a.Wake? ==> 0 < s.nIdle)
    ensures Inv(Done(s, a, most))
  {
    hide Inv;
    hide Done;
    hide Enabled;
    CountersInRange(s, a);
    match a {
      case Add(checks, woken) => AddKeeps(s, checks, woken, most);
      case Start(i) => StartKeeps(s, i, most);
      case Execute(i) => ExecuteKeeps(s, i, most);
      case Finish(i) => FinishKeeps(s, i, most);
      case Wake(i) => WakeKeeps(s, i, most);
    }
  }

  // ----- whole runs

  /** A new queue, with threads that have not entered the loop. */
  function Initial(workers: nat): (s: State)
    ensures Inv(s)
  {
    var s := State(seq(workers + 1, i => Outside), [], 0, 0, 0, true, multiset{}, multiset{}, NoResult);
    AllOutside(s.threads);
    s
  }

  lemma {:induction false} AllOutside(ts: seq<Local>)
    requires forall i :: 0 <= i < |ts| ==> ts[i] == Outside
    ensures Sum(ts, LOAD) == 0 && Sum(ts, IDLE) == 0 && Sum(ts, INSIDE) == 0 && Hands(ts) == multiset{}
  {
    if ts != [] {
      AllOutside(ts[..|ts| - 1]);
    }
  }

  /** Whether a sequence of steps can be taken from `s`, one after the other. */
  predicate Possible(s: State, steps: seq<Action>, most: nat)
    requires Inv(s)
    decreases |steps|
  {
    steps == [] || (
      Enabled(s, steps[0]) &&
      (StepKeeps(s, steps[0], most);
       Possible(Done(s, steps[0], most), steps[1..], most)))
  }

  function After(s: State, steps: seq<Action>, most: nat): (t: State)
    requires Inv(s) && Possible(s, steps, most)
    ensures Inv(t)
    decreases |steps|
  {
    if steps == [] then s else
    StepKeeps(s, steps[0], most);
    After(Done(s, steps[0], most), steps[1..], most)
  }

  /** What the invariant promises: the counts are exact, what `Wait` returned is whether all checks added since
      the `Wait` before it pass, and a master that waits without having been notified waits for a batch in the
      hands of some worker. */
  ghost predicate Promised(s: State) {
    && s.nTodo == |s.queue| + Sum(s.threads, LOAD)
    && (s.result.Returned? ==> (s.result.ok <==> AllPass(s.result.of)))
    && (s.threads != [] && s.threads[0] == Waiting(false) ==>
          exists i :: 0 < i < |s.threads| && Batch(s.threads[i]) != [])
  }

  lemma InvPromises(s: State)
    requires Inv(s)
    ensures Promised(s)
  {
    hide Hands;
    hide AllPass;
    if s.threads[0] == Waiting(false) {
      var i := SumPositive(s.threads, LOAD);
      assert 0 < i && Batch(s.threads[i]) != [];
    }
  }

  /** The promises hold for any number of workers and any interleaving. */
  lemma AnyRun(workers: nat, steps: seq<Action>, most: nat)
    requires Possible(Initial(workers), steps, most)
    ensures Promised(After(Initial(workers), steps, most))
  {
    hide *;
    InvPromises(After(Initial(workers), steps, most));
  }

  // ----- Wait comes to an end

  /** A step that somebody can take without waking up for no reason. */
  predicate Purposeful(s: State, a: Action) {
    Enabled(s, a) && !a.Add? && (a.Wake? ==> s.threads[a.i].notified) && (a.Start? ==> a.i != 0)
  }

  /** While the master is in `Wait`, some thread can go on. */
  lemma NeverStuck(s: State) returns (a: Action)
    requires Inv(s) && !s.threads[0].Outside?
    ensures Purposeful(s, a)
  {
    match s.threads[0] {
      case Holding(_, _) => a := Execute(0);
      case Finished(_, _) => a := Finish(0);
      case Waiting(notified) =>
        if notified {
          a := Wake(0);
        } else {
          var i := SumPositive(s.threads, LOAD);
          a := if s.threads[i].Holding? then Execute(i) else Finish(i);
        }
    }
  }

  /** What a thread has still to do. */
  const WEIGHT: Local -> nat := (l: Local) =>
    match l
    case Outside => 1
    case Holding(batch, _) => 3 * |batch|
    case Finished(batch, _) => 2 * |batch|
    case Waiting(notified) => if notified then 1 else 0

  function Measure(s: State): nat {
    4 * |s.queue| + Sum(s.threads, WEIGHT)
  }

  lemma HeadProgress(s: State, i: nat, most: nat)
    requires i < |s.threads| && s.threads[i] == Outside && 0 <= s.nTotal && 0 <= s.nIdle
    ensures var t := LoopHead(s, i, most);
      |t.threads| == |s.threads| &&
      (Measure(t) < Measure(s) || (i == 0 && t.result.Returned? && t.threads[0].Outside?))
  {
    hide Sum;
    hide Popped;
    var t := LoopHead(s, i, most);
    SumUpdate(s.threads, WEIGHT, i, t.threads[i]);
  }

  /** Nearer to the end of `Wait`, or at it. */
  predicate Progress(s: State, t: State) {
    Measure(t) < Measure(s) || (t.threads != [] && t.threads[0].Outside? && t.result.Returned?)
  }

  /** What the steps of a thread in the loop rely on. */
  lemma BatchNotEmpty(s: State, i: nat)
    requires Inv(s) && i < |s.threads| && (s.threads[i].Holding? || s.threads[i].Finished?)
    ensures s.threads[i].batch != []
  {
    assert Honest(s, s.threads[i]);
  }

  lemma StartProgress(s: State, i: nat, most: nat)
    requires Enabled(s, Start(i)) && i != 0 && 0 <= s.nTotal && 0 <= s.nIdle
    ensures Progress(s, Done(s, Start(i), most))
  {
    hide Sum;
    hide LoopHead;
    HeadProgress(s.(nTotal := s.nTotal + 1), i, most);
  }

  lemma ExecuteProgress(s: State, i: nat, most: nat)
    requires Enabled(s, Execute(i)) && s.threads[i].batch != [] && 0 <= s.nTotal && 0 <= s.nIdle
    ensures Progress(s, Done(s, Execute(i), most))
  {
    hide Sum;
    SumUpdate(s.threads, WEIGHT, i, Done(s, Execute(i), most).threads[i]);
  }

  lemma FinishProgress(s: State, i: nat, most: nat)
    requires Enabled(s, Finish(i)) && s.threads[i].batch != [] && 0 <= s.nTotal && 0 <= s.nIdle
    ensures Progress(s, Done(s, Finish(i), most))
  {
    hide Sum;
    hide LoopHead;
    CleanUpProgress(s, i);
    HeadProgress(CleanedUp(s, i), i, most);
  }

  lemma WakeProgress(s: State, i: nat, most: nat)
    requires Enabled(s, Wake(i)) && s.threads[i].notified && 0 <= s.nTotal && 0 < s.nIdle
    ensures Progress(s, Done(s, Wake(i), most))
  {
    hide Sum;
    hide LoopHead;
    SumUpdate(s.threads, WEIGHT, i, Outside);
    HeadProgress(s.(nIdle := s.nIdle - 1, threads := s.threads[i := Outside]), i, most);
  }

  /** Every such step brings `Wait` nearer to its end, or ends it. */
  lemma StepProgress(s: State, a: Action, most: nat)
    requires Inv(s) && Purposeful(s, a)
    ensures 0 <= s.nTotal && 0 <= s.nIdle && (a.Wake? ==> 0 < s.nIdle)
    ensures Progress(s, Done(s, a, most))
  {
    hide Inv;
    hide Done;
    hide Progress;
    CountersInRange(s, a);
    match a {
      case Start(i) =>
        StartProgress(s, i, most);
      case Execute(i) =>
        BatchNotEmpty(s, i);
        ExecuteProgress(s, i, most);
      case Finish(i) =>
        BatchNotEmpty(s, i);
        FinishProgress(s, i, most);
      case Wake(i) =>
        WakeProgress(s, i, most);
    }
  }

  lemma CleanUpProgress(s: State, i: nat)
    requires i < |s.threads| && s.threads[i].Finished? && s.threads[i].batch != []
    ensures Measure(CleanedUp(s, i)) <= Measure(s)
  {
    hide Sum;
    var ts :=
      if s.nTodo - |s.threads[i].batch| == 0 && i != 0 then s.threads[0 := Notified(s.threads[0])] else s.threads;
    SumUpdate(s.threads, WEIGHT, 0, Notified(s.threads[0]));
    SumUpdate(ts, WEIGHT, i, Outside);
  }

  /** A run of such steps along which `Wait` does not return. */
  predicate KeepsWaiting(s: State, steps: seq<Action>, most: nat)
    requires Inv(s)
    decreases |steps|
  {
    steps == [] || (
      Purposeful(s, steps[0]) &&
      (StepKeeps(s, steps[0], most);
       var t := Done(s, steps[0], most);
       !t.threads[0].Outside? && KeepsWaiting(t, steps[1..], most)))
  }

  /** Without wake-ups for no reason, `Wait` returns after a bounded number of steps, however they interleave. */
  lemma {:induction false} WaitEnds(s: State, steps: seq<Action>, most: nat)
    requires Inv(s) && KeepsWaiting(s, steps, most)
    ensures |steps| <= Measure(s)
    decreases |steps|
  {
    hide Measure;
    hide Done;
    if steps != [] {
      StepKeeps(s, steps[0], most);
      StepProgress(s, steps[0], most);
      WaitEnds(Done(s, steps[0], most), steps[1..], most);
    }
  }

  // ----- the two loops over a batch

  /** Takes a batch off the end of the queue. */
  method TakeBatch(queue: seq<Check>, nTotal: int, nIdle: int, most: nat)
    returns (vChecks: seq<Check>, rest: seq<Check>)
    requires queue != [] && 0 <= nTotal && 0 <= nIdle
    ensures var k := BatchSize(|queue|, nTotal, nIdle, most);
      vChecks == Popped(queue, k) && rest == queue[..|queue| - k]
  {
    var nNow := BatchSize(|queue|, nTotal, nIdle, most);
    vChecks, rest := [], queue;
    for i := 0 to nNow
      invariant |rest| == |queue| - i && rest == queue[..|queue| - i]
      invariant Popped(queue, nNow) == vChecks + Popped(rest, nNow - i)
    {
      vChecks := vChecks + [rest[|rest| - 1]];
      rest := rest[..|rest| - 1];
    }
  }

  /** Runs the checks of a batch until one fails. */
  method RunBatch(vChecks: seq<Check>, allOk: bool) returns (fOk: bool)
    ensures fOk == Run(vChecks, allOk)
    ensures fOk <==> allOk && AllPass(multiset(vChecks))
  {
    RunMeans(vChecks, allOk);
    fOk := allOk;
    for i := 0 to |vChecks|
      invariant Run(vChecks, allOk) == Run(vChecks[i..], fOk)
    {
      assert vChecks[i..][1..] == vChecks[i + 1..];
      if fOk {
        fOk := vChecks[i].passes;
      }
    }
  }

  // ----- sharing the work

  /** A batch is at least one check and no larger than allowed. A batch of more than one leaves as much for every
      other thread and one more, and it is as large as that permits. */
  lemma ShareIsFair(queued: nat, nTotal: int, nIdle: int, most: nat)
    requires 0 < queued && 0 <= nTotal && 0 <= nIdle
    ensures var k, among := BatchSize(queued, nTotal, nIdle, most), nTotal + nIdle + 1;
      && 1 <= k && (k == 1 || k <= most)
      && (1 < k ==> k * among <= queued)
      && (k < most ==> queued < (k + 1) * among)
  {
    var among := nTotal + nIdle + 1;
    var share := queued / among;
    assert share * among <= queued < share * among + among;
    assert (share + 1) * among == share * among + among;
    if share < 1 {
      assert 2 * among == among + among;
    }
  }

  /** When several checks are added no worker stays asleep without having been notified; when one is added, one that
      slept is notified if there was any, and only that one. */
  lemma AddNotifies(s: State, checks: seq<Check>, woken: nat, most: nat, j: nat)
    requires Inv(s) && Enabled(s, Add(checks, woken)) && 0 < j < |s.threads| && 0 <= s.nTotal && 0 <= s.nIdle
    ensures var t := Done(s, Add(checks, woken), most).threads;
      && |t| == |s.threads| && t[0] == s.threads[0]
      && (1 < |checks| ==> t[j] != Waiting(false))
      && (|checks| == 1 && s.threads[j] == Waiting(false) ==>
            0 < woken < |t| && t[woken] == Waiting(true) && (j != woken ==> t[j] == s.threads[j]))
      && (checks == [] ==> t == s.threads)
  {
    hide Inv;
  }
}
