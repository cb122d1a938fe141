/**
 Progress of the piece store: how many steps the two threads need to work off the write queue.
 */
module StoreProgress {
  import opened Bytes
  import opened Layout
  import opened Pieces
  import opened StoreProtocol

  /** Neither a new write nor a new read request. */
  predicate IsService(step: Step) {
    !step.Submit? && !step.SubmitRead?
  }

  /** The two threads go on with what they have to do. */
  ghost predicate Serves(m: Meta, s: State, t: State) {
    exists step :: Enabled(m, s, step) && IsService(step) && t == Apply(m, s, step)
  }

  /** More than the steps of one request: one per file, and one round of the worker's outer loop. */
  function PerRequest(m: Meta): nat {
    |m.files| + 10
  }

  function IoWork(m: Meta, io: IoPc): nat {
    match io
    case IoIdle => 0
    case IoNotifying => 1
    case IoUnlocking => 2
    case IoMarking(_) => 3
    case IoReadPushing => 4
    case IoReadChecked => 5
    case IoPushing(_) => PerRequest(m) + 4
    case IoChecked(_) => PerRequest(m) + 5
  }

  function WorkerWork(m: Meta, w: WorkerPc): nat {
    var n := |m.files|;
    match w
    case WPop => 0
    case WAnnounce => 1
    case WComplete => 2
    case WClear => 3
    case WFile(k, _) => 4 + if k < n then n - k else 0
    case WWrites => n + 5
    case WWoken => n + 6
    case WTest => n + 6
    case WTop => n + 7
    case WWaiting => n + 7
    case WUnlock => n + 8
    case WReads => n + 9
  }

  /** A bound on the steps until the write queue is empty. */
  function Work(m: Meta, s: State): nat {
    IoWork(m, s.io) + |s.queue| * PerRequest(m) + s.readQueue + WorkerWork(m, s.worker)
  }

  lemma {:induction false} OneMore(n: nat, r: nat)
    ensures (n + 1) * r == n * r + r
  {
  }

  /** While a write request is queued, every step that submits nothing brings the work down, a spurious wake-up included. */
  lemma {:induction false} ServiceStep(m: Meta, s: State, step: Step)
    requires Enabled(m, s, step) && IsService(step) && s.queue != []
    ensures Work(m, Apply(m, s, step)) < Work(m, s)
  {
    hide FileStep, StartWrite, PieceBegin, PerRequest;
    assert PerRequest(m) == |m.files| + 10 by { RequestWork(m); }
    OneMore(|s.queue|, PerRequest(m));
    OneMore(|s.queue| - 1, PerRequest(m));
  }

  lemma {:induction false} RequestWork(m: Meta)
    ensures PerRequest(m) == |m.files| + 10
  {
  }

  lemma {:induction false} ServesLess(m: Meta, s: State, t: State)
    requires Serves(m, s, t) && s.queue != []
    ensures Work(m, t) < Work(m, s)
  {
    hide Work;
    var step :| Enabled(m, s, step) && IsService(step) && t == Apply(m, s, step);
    ServiceStep(m, s, step);
  }

  /** From state `i` to state `j` of the run, no new request is made. */
  ghost predicate Undisturbed(m: Meta, ss: seq<State>, i: nat, j: nat)
    requires i <= j < |ss|
  {
    forall k :: i <= k < j ==> Serves(m, ss[k], ss[k + 1])
  }

  lemma {:induction false} WorkBound(m: Meta, ss: seq<State>, i: nat, j: nat)
    requires i <= j < |ss| && Undisturbed(m, ss, i, j)
    requires forall k :: i <= k < j ==> ss[k].queue != []
    ensures j - i + Work(m, ss[j]) <= Work(m, ss[i])
    decreases j - i
  {
    hide Work, Serves;
    if i == j {
    } else {
      WorkBound(m, ss, i, j - 1);
      assert Serves(m, ss[j - 1], ss[j - 1 + 1]);
      ServesLess(m, ss[j - 1], ss[j]);
    }
  }

  lemma {:induction false} QueuedIsWork(m: Meta, s: State)
    requires s.queue != []
    ensures Work(m, s) > 0
  {
    OneMore(|s.queue| - 1, PerRequest(m));
  }

  /** If nothing is submitted meanwhile, then after `Work` steps of either thread the queue has been worked off. */
  lemma {:induction false} ServedUndisturbed(m: Meta, found: map<nat, bytes>, ss: seq<State>, i: nat, j: nat)
    requires Run(m, found, ss)
    requires i <= j < |ss| && Undisturbed(m, ss, i, j) && j - i >= Work(m, ss[i])
    ensures ss[j].popped >= |ss[i].accepted|
  {
    hide Work, Serves, Run;
    if forall k :: i <= k <= j ==> ss[k].queue != [] {
      WorkBound(m, ss, i, j);
      QueuedIsWork(m, ss[j]);
      assert false;
    } else {
      var k :| i <= k <= j && ss[k].queue == [];
      RunControl(m, found, ss, k);
      EmptyIsPopped(m, found, ss[k]);
      Monotone(m, found, ss, i, k);
      Monotone(m, found, ss, k, j);
    }
  }

  lemma {:induction false} EmptyIsPopped(m: Meta, found: map<nat, bytes>, s: State)
    requires Control(m, found, s) && s.queue == []
    ensures s.popped == |s.accepted|
  {
    hide LockInv, PendingInv, WakeInv, ProgressInv, CursorInv, ValidRequest;
    assert |s.accepted[s.popped..]| == |s.accepted| - s.popped;
  }

  // ---------- Bounded service, whatever is submitted ----------

  /** The moves the worker needs at most from `w` on until it pops the request it treats or treats next. */
  function Rest(m: Meta, w: WorkerPc): nat {
    var n := |m.files|;
    match w
    case WPop => 1
    case WAnnounce => 2
    case WComplete => 3
    case WClear => 4
    case WFile(k, _) => 5 + if k < n then n - k else 0
    case WWrites => n + 6
    case WWoken => n + 7
    case WTest => n + 7
    case _ => n + 8
  }

  /** The moves of the worker until request `j` is popped; later requests do not count. */
  function Ahead(m: Meta, s: State, j: nat): nat {
    if j < s.popped then 0 else (j - s.popped) * (|m.files| + 6) + Rest(m, s.worker)
  }

  /** How often the worker changes its place from state `i` to state `k`. */
  function Moves(ss: seq<State>, i: nat, k: nat): nat
    requires i <= k < |ss|
  {
    if i == k then 0 else Moves(ss, i, k - 1) + if ss[k - 1].worker != ss[k].worker then 1 else 0
  }

  lemma {:induction false} NatProduct(a: nat, b: nat)
    ensures a * b >= 0
  {
  }

  lemma {:induction false} AheadPop(m: Meta, s: State, j: nat)
    requires Enabled(m, s, WorkerPop) && s.popped <= j
    ensures Ahead(m, Apply(m, s, WorkerPop), j) < Ahead(m, s, j)
  {
    NatProduct(j - s.popped, |m.files| + 6);
    if j > s.popped {
      OneMore(j - s.popped - 1, |m.files| + 6);
    }
  }

  // The other moves of the worker lead down to the pop.
  lemma {:induction false} RestStep(m: Meta, s: State, step: Step)
    requires Enabled(m, s, step) && LockInv(s) && CursorInv(m, s) && s.queue != [] && !step.WorkerPop?
    ensures var t := Apply(m, s, step);
            t.popped == s.popped && (s.worker == t.worker || Rest(m, t.worker) < Rest(m, s.worker))
  {
    hide FileStep, StartWrite, PieceBegin, Eligible;
  }

  /**
   While request `j` waits, every move of the worker brings it nearer, a wake-up included, and no
   step of the I/O thread puts it back, a new submission included.
   */
  lemma {:induction false} AheadStep(m: Meta, s: State, step: Step, j: nat)
    requires Enabled(m, s, step) && LockInv(s) && QueueInv(m, s) && CursorInv(m, s) && s.popped <= j < |s.accepted|
    ensures var t := Apply(m, s, step);
            if s.worker == t.worker then Ahead(m, t, j) == Ahead(m, s, j) else Ahead(m, t, j) < Ahead(m, s, j)
  {
    assert s.queue[j - s.popped] == s.accepted[j];
    if step.WorkerPop? {
      PopMoves(m, s);
      AheadPop(m, s, j);
    } else {
      RestStep(m, s, step);
      hide Apply, Enabled, Rest;
    }
  }

  lemma {:induction false} PopMoves(m: Meta, s: State)
    requires Enabled(m, s, WorkerPop)
    ensures s.worker != Apply(m, s, WorkerPop).worker
  {
  }

  lemma {:induction false} AheadNext(m: Meta, found: map<nat, bytes>, s: State, t: State, j: nat)
    requires Next(m, s, t) && Control(m, found, s) && s.popped <= j < |s.accepted|
    ensures if s.worker == t.worker then Ahead(m, t, j) == Ahead(m, s, j) else Ahead(m, t, j) < Ahead(m, s, j)
  {
    var step :| Enabled(m, s, step) && t == Apply(m, s, step);
    hide *;
    ControlParts(m, found, s);
    AheadStep(m, s, step, j);
  }

  lemma {:induction false} WaitingIsAhead(m: Meta, s: State, j: nat)
    requires s.popped <= j
    ensures Ahead(m, s, j) > 0
  {
    NatProduct(j - s.popped, |m.files| + 6);
  }

  lemma {:induction false} RunNext(m: Meta, found: map<nat, bytes>, ss: seq<State>, i: nat)
    requires Run(m, found, ss) && i + 1 < |ss|
    ensures Next(m, ss[i], ss[i + 1])
  {
    hide Next, Init;
  }

  /** How many moves that is at most: a round over the files for each request in front, and two rounds more. */
  lemma {:induction false} AheadBound(m: Meta, s: State, j: nat)
    ensures Ahead(m, s, j) <= if j < s.popped then 0 else (j - s.popped + 2) * (|m.files| + 6)
  {
    if j >= s.popped {
      OneMore(j - s.popped, |m.files| + 6);
      OneMore(j - s.popped + 1, |m.files| + 6);
      RestBound(m, s.worker);
      hide Rest;
    }
  }

  lemma {:induction false} RestBound(m: Meta, w: WorkerPc)
    ensures Rest(m, w) <= 2 * (|m.files| + 6)
  {
  }

  /** The steps to an empty queue: a round over the files for each queued request, three rounds more, and the queued reads. */
  lemma {:induction false} WorkAtMost(m: Meta, s: State)
    ensures Work(m, s) <= (|s.queue| + 3) * (|m.files| + 10) + s.readQueue
  {
    OneMore(|s.queue|, |m.files| + 10);
    OneMore(|s.queue| + 1, |m.files| + 10);
    OneMore(|s.queue| + 2, |m.files| + 10);
  }

  lemma {:induction false} MovesLast(ss: seq<State>, i: nat, k: nat)
    requires i <= k < |ss|
    ensures Moves(ss, i, i) == 0
    ensures i < k ==> Moves(ss, i, k) == Moves(ss, i, k - 1) + if ss[k - 1].worker != ss[k].worker then 1 else 0
  {
  }

  lemma {:induction false} MovesBound(m: Meta, found: map<nat, bytes>, ss: seq<State>, i: nat, k: nat, j: nat)
    requires Run(m, found, ss) && i <= k < |ss| && ss[k].popped <= j < |ss[i].accepted|
    ensures Moves(ss, i, k) + Ahead(m, ss[k], j) <= Ahead(m, ss[i], j)
    decreases k - i
  {
    hide *;
    MovesLast(ss, i, k);
    if i == k {
    } else {
      Monotone(m, found, ss, k - 1, k);
      Monotone(m, found, ss, i, k - 1);
      MovesBound(m, found, ss, i, k - 1, j);
      RunControl(m, found, ss, k - 1);
      RunNext(m, found, ss, k - 1);
      AheadNext(m, found, ss[k - 1], ss[k], j);
    }
  }

  /**
   Bounded service: a request accepted by state `i` has been processed once the worker has moved
   `Ahead` times, whatever the I/O thread does or submits in between, and in whatever order the
   two threads move.
   */
  lemma {:induction false} ServedWithin(m: Meta, found: map<nat, bytes>, ss: seq<State>, i: nat, k: nat, j: nat)
    requires Run(m, found, ss) && i <= k < |ss| && j < |ss[i].accepted|
    requires Moves(ss, i, k) >= Ahead(m, ss[i], j)
    ensures ss[k].popped > j
  {
    hide Run, Ahead, Moves;
    if ss[k].popped <= j {
      MovesBound(m, found, ss, i, k, j);
      WaitingIsAhead(m, ss[k], j);
      assert false;
    }
  }

  // ---------- From the check to the queue ----------

  // Between the check and the return of `writePieceBlock` the request is on its way into the queue.
  predicate OnItsWay(before: seq<WriteRequest>, w: WriteRequest, s: State) {
    || (s.accepted == before && (s.io == IoChecked(w) || s.io == IoPushing(w)))
    || (s.accepted == before + [w] && (s.io == IoMarking(w) || s.io.IoUnlocking? || s.io.IoNotifying? || s.io.IoIdle?))
  }

  lemma {:induction false} OnItsWayStep(m: Meta, before: seq<WriteRequest>, w: WriteRequest, s: State, step: Step)
    requires Enabled(m, s, step) && OnItsWay(before, w, s) && !s.io.IoIdle?
    ensures OnItsWay(before, w, Apply(m, s, step))
  {
    hide FileStep, StartWrite, PieceBegin, Eligible;
  }

  /**
   When `writePieceBlock` returns, its request is the newest of those accepted: checked at state `a`,
   idle again first at state `b`. The worker may have taken it off the queue already.
   */
  lemma {:induction false} Returned(m: Meta, found: map<nat, bytes>, ss: seq<State>, a: nat, b: nat, w: WriteRequest)
    requires Run(m, found, ss) && a < b < |ss|
    requires ss[a].io.IoIdle? && Eligible(m, ss[a].pending, w) && ss[a + 1] == Apply(m, ss[a], Submit(w))
    requires forall k :: a < k < b ==> !ss[k].io.IoIdle?
    ensures OnItsWay(ss[a].accepted, w, ss[b])
    decreases b
  {
    hide Init, Eligible, Apply, Enabled, OnItsWay;
    if b == a + 1 {
      CheckedIsOnItsWay(m, ss[a], w);
    } else {
      Returned(m, found, ss, a, b - 1, w);
      assert Next(m, ss[b - 1], ss[b - 1 + 1]);
      var step :| Enabled(m, ss[b - 1], step) && ss[b] == Apply(m, ss[b - 1], step);
      OnItsWayStep(m, ss[a].accepted, w, ss[b - 1], step);
    }
  }

  lemma {:induction false} CheckedIsOnItsWay(m: Meta, s: State, w: WriteRequest)
    requires s.io.IoIdle? && Eligible(m, s.pending, w)
    ensures OnItsWay(s.accepted, w, Apply(m, s, Submit(w)))
  {
  }

  lemma {:induction false} ServesKeepsAccepted(m: Meta, s: State, t: State)
    requires Serves(m, s, t) && s.io.IoIdle?
    ensures t.io.IoIdle? && t.accepted == s.accepted
  {
    hide FileStep, StartWrite, PieceBegin, Eligible;
  }

  // With an idle I/O thread nothing is accepted.
  lemma {:induction false} UndisturbedKeepsAccepted(m: Meta, ss: seq<State>, i: nat, j: nat)
    requires i <= j < |ss| && Undisturbed(m, ss, i, j) && ss[i].io.IoIdle?
    ensures ss[j].io.IoIdle? && ss[j].accepted == ss[i].accepted
    decreases j - i
  {
    hide Serves;
    if i == j {
    } else {
      UndisturbedKeepsAccepted(m, ss, i, j - 1);
      assert Serves(m, ss[j - 1], ss[j - 1 + 1]);
      ServesKeepsAccepted(m, ss[j - 1], ss[j]);
    }
  }

  /** The piece of request `j` has not been accepted again. */
  ghost predicate NotAgain(s: State, j: nat)
    requires j < |s.accepted|
  {
    forall l :: j < l < |s.accepted| ==> s.accepted[l].index != s.accepted[j].index
  }

  /** A request that has been processed is on disk as long as its piece has not been accepted again. */
  lemma {:induction false} ProcessedIsOnDisk(m: Meta, found: map<nat, bytes>, ss: seq<State>, c: nat, j: nat)
    requires WellFormed(m) && Run(m, found, ss) && c < |ss| && RightLengths(m, found, ss[c].accepted)
    requires j < ss[c].popped && j < |ss[c].accepted| && NotAgain(ss[c], j)
    ensures |ss[c].contents| == |m.files|
    ensures var w := ss[c].accepted[j];
            && w.index in ss[c].completed && w.index in ss[c].announced
            && Holds(m.files, ss[c].contents, PieceBegin(m, w.index), w.data)
  {
    hide *;
    RunControl(m, found, ss, c);
    ControlParts(m, found, ss[c]);
    PoppedWithin(m, ss[c]);
    NotRewriting(m, ss[c], j);
    NotWrittenAgain(ss[c], j);
    AcceptedReachesDisk(m, found, ss, c, j);
  }

  lemma {:induction false} NotRewriting(m: Meta, s: State, j: nat)
    requires QueueInv(m, s) && j < s.popped && NotAgain(s, j)
    ensures !Rewriting(s, s.accepted[j].index)
  {
    hide ValidRequest;
    if s.queue != [] {
      assert s.accepted[s.popped] == s.queue[0];
    }
  }

  lemma {:induction false} NotWrittenAgain(s: State, j: nat)
    requires j < |s.accepted| && NotAgain(s, j)
    ensures forall l :: j < l < Wrote(s) && l < |s.accepted| ==> s.accepted[l].index != s.accepted[j].index
  {
  }

  /** State `a` submits the eligible request `w`, and the call returns at state `b`. */
  ghost predicate Submitted(m: Meta, ss: seq<State>, a: nat, b: nat, w: WriteRequest)
    requires a < b < |ss|
  {
    && ss[a].io.IoIdle? && Eligible(m, ss[a].pending, w) && ss[a + 1] == Apply(m, ss[a], Submit(w))
    && (forall k :: a < k < b ==> !ss[k].io.IoIdle?) && ss[b].io.IoIdle?
  }

  /** The request is in the order of accepted requests from the return of the call on. */
  lemma {:induction false} SubmittedIsAccepted(m: Meta, found: map<nat, bytes>, ss: seq<State>, a: nat, b: nat, c: nat, w: WriteRequest)
    requires Run(m, found, ss) && a < b <= c < |ss| && Submitted(m, ss, a, b, w)
    ensures var j := |ss[a].accepted|;
            j < |ss[b].accepted| <= |ss[c].accepted| && ss[c].accepted[j] == w
  {
    Returned(m, found, ss, a, b, w);
    assert ss[b].accepted == ss[a].accepted + [w];
    hide *;
    Monotone(m, found, ss, b, c);
  }

  /**
   From the check to the disk: a request that passed the check at state `a`, and whose call
   returned at state `b`, is completed and announced once the worker has moved `Ahead` times,
   whatever is submitted meanwhile; and it is on disk, unless the same piece was accepted again.
   */
  lemma {:induction false} SubmitReachesDisk(m: Meta, found: map<nat, bytes>, ss: seq<State>, a: nat, b: nat, c: nat, w: WriteRequest)
    requires Run(m, found, ss) && a < b <= c < |ss| && Submitted(m, ss, a, b, w)
    requires Moves(ss, b, c) >= Ahead(m, ss[b], |ss[a].accepted|)
    ensures w.index in ss[c].completed && w.index in ss[c].announced
    ensures |ss[a].accepted| < |ss[c].accepted|
    ensures WellFormed(m) && RightLengths(m, found, ss[c].accepted) && NotAgain(ss[c], |ss[a].accepted|) ==>
              |ss[c].contents| == |m.files| && Holds(m.files, ss[c].contents, PieceBegin(m, w.index), w.data)
  {
    hide *;
    var j := |ss[a].accepted|;
    SubmittedIsAccepted(m, found, ss, a, b, c, w);
    ServedWithin(m, found, ss, b, c, j);
    ProcessedIsAnnounced(m, found, ss, c, j);
    if WellFormed(m) && RightLengths(m, found, ss[c].accepted) && NotAgain(ss[c], j) {
      ProcessedIsOnDisk(m, found, ss, c, j);
    }
  }

  /** The same without exception, as long as no wrong data has passed the check. */
  lemma {:induction false} SubmitReachesTruth(m: Meta, truth: bytes, found: map<nat, bytes>, ss: seq<State>, a: nat, b: nat, c: nat,
                                              w: WriteRequest)
    requires Run(m, found, ss) && a < b <= c < |ss| && Submitted(m, ss, a, b, w)
    requires Moves(ss, b, c) >= Ahead(m, ss[b], |ss[a].accepted|)
    requires TrueData(m, truth, found, ss[c].accepted)
    ensures |ss[c].contents| == |m.files| && Holds(m.files, ss[c].contents, PieceBegin(m, w.index), w.data)
    ensures w.index in ss[c].completed && w.index in ss[c].announced
  {
    hide *;
    SubmitReachesDisk(m, found, ss, a, b, c, w);
    CompletedIsTrue(m, truth, found, ss, c, w.index);
    SubmittedIsAccepted(m, found, ss, a, b, c, w);
    AcceptedIsTrueData(m, truth, found, ss[c].accepted, |ss[a].accepted|);
  }

  lemma {:induction false} AcceptedIsTrueData(m: Meta, truth: bytes, found: map<nat, bytes>, acc: seq<WriteRequest>, k: nat)
    requires TrueData(m, truth, found, acc) && k < |acc|
    ensures WellFormed(m) && |truth| == m.Total() && acc[k].index < m.numPieces
    ensures acc[k].data == PieceOf(m, truth, acc[k].index)
  {
    hide WellFormed, PieceOf;
  }

  // ---------- It can always be done ----------

  /** The next move of the I/O thread, or of a worker it has to wait for. */
  function IoFirst(s: State): Step {
    match s.io
    case IoIdle => WorkerMove(s.worker)
    case IoChecked(_) => if s.owner.Worker? then Release(s.worker) else IoLock
    case IoReadChecked => if s.owner.Worker? then Release(s.worker) else IoLock
    case IoPushing(_) => IoPush
    case IoReadPushing => IoPush
    case IoMarking(_) => IoMark
    case IoUnlocking => IoUnlock
    case IoNotifying => IoNotify
  }

  /** The worker on its way out of the locked section. */
  function Release(w: WorkerPc): Step {
    if w.WReads? then WorkerRead(false) else WorkerMove(w)
  }

  /** A bound on the steps until the worker gives up the lock. */
  function LockWork(m: Meta, s: State): nat {
    var n := |m.files|;
    |s.queue| * PerRequest(m) + match s.worker
      case WUnlock => 0
      case WReads => 1
      case WPop => 2
      case WAnnounce => 3
      case WComplete => 4
      case WClear => 5
      case WFile(k, _) => 6 + if k < n then n - k else 0
      case WWrites => n + 7
      case _ => n + 8
  }

  lemma {:induction false} WorkerEnabled(m: Meta, s: State)
    requires LockInv(s) && QueueInv(m, s) && CursorInv(m, s) && s.owner.Worker?
    ensures Enabled(m, s, Release(s.worker)) && IsWorkerStep(Release(s.worker))
  {
    hide ValidRequest;
  }

  lemma {:induction false} ReleaseStep(m: Meta, s: State)
    requires WorkerHolds(s.worker) && Enabled(m, s, Release(s.worker))
    ensures var t := Apply(m, s, Release(s.worker));
            t.io == s.io && (t.owner.Free? || LockWork(m, t) < LockWork(m, s))
  {
    hide FileStep, StartWrite, PieceBegin, PerRequest;
    assert PerRequest(m) == |m.files| + 10 by { RequestWork(m); }
    if s.queue != [] {
      OneMore(|s.queue| - 1, PerRequest(m));
    }
  }

  /** Free counts as nothing to wait for. */
  function WaitWork(m: Meta, s: State): nat {
    if s.owner.Worker? then LockWork(m, s) + 1 else 0
  }

  lemma {:induction false} IoFirstStep(m: Meta, found: map<nat, bytes>, s: State)
    requires Control(m, found, s) && !s.io.IoIdle?
    ensures Enabled(m, s, IoFirst(s)) && IsService(IoFirst(s))
    ensures var t := Apply(m, s, IoFirst(s));
            IoWork(m, t.io) < IoWork(m, s.io) || (IoWork(m, t.io) == IoWork(m, s.io) && WaitWork(m, t) < WaitWork(m, s))
  {
    ControlParts(m, found, s);
    hide Control, QueueInv, PendingInv, WakeInv, ProgressInv, CursorInv, FileStep, StartWrite, PieceBegin, LockWork;
    if (s.io.IoChecked? || s.io.IoReadChecked?) && s.owner.Worker? {
      WorkerEnabled(m, s);
      ReleaseStep(m, s);
    }
  }

  function Last(ss: seq<State>): State
    requires ss != []
  {
    ss[|ss| - 1]
  }

  lemma {:induction false} Assoc(a: seq<State>, b: seq<State>, c: seq<State>)
    ensures a + b + c == a + (b + c)
  {
  }

  lemma {:induction false} LastPushed(ss: seq<State>, t: State)
    ensures Last(ss + [t]) == t
  {
  }

  // The joints of a run put together from three parts.
  lemma {:induction false} LastOfTail(ss: seq<State>, back: seq<State>, rest: seq<State>)
    requires ss != [] && back != []
    ensures var tt := ss + back + rest;
            && tt[|ss| - 1] == Last(ss) && tt[|ss|] == back[0] && tt[|ss| + |back| - 1] == Last(back)
            && tt[|tt| - 1] == Last(back + rest) && Last(ss + back) == Last(back)
  {
    Assoc(ss, back, rest);
  }

  lemma {:induction false} LastRunControl(m: Meta, found: map<nat, bytes>, ss: seq<State>)
    requires ss != [] && Run(m, found, ss)
    ensures Control(m, found, Last(ss))
  {
    RunControl(m, found, ss, |ss| - 1);
  }

  lemma {:induction false} RunAppend(m: Meta, found: map<nat, bytes>, ss: seq<State>, step: Step)
    requires ss != [] && Run(m, found, ss) && Enabled(m, Last(ss), step)
    ensures Run(m, found, ss + [Apply(m, Last(ss), step)])
  {
    hide Enabled, Apply, Init;
    var t := Apply(m, Last(ss), step);
    assert Next(m, Last(ss), t);
    var tt := ss + [t];
    forall i | 0 <= i < |tt| - 1
      ensures Next(m, tt[i], tt[i + 1])
    {
      if i < |ss| - 1 {
        assert Next(m, ss[i], ss[i + 1]);
      }
    }
  }

  // From any state on, the I/O thread can finish what it is doing.
  lemma {:induction false} FinishIo(m: Meta, found: map<nat, bytes>, ss: seq<State>) returns (ext: seq<State>)
    requires ss != [] && Run(m, found, ss) && !Last(ss).io.IoIdle?
    ensures Run(m, found, ss + ext) && BusyUntilEnd(ext)
    decreases IoWork(m, Last(ss).io), WaitWork(m, Last(ss))
  {
    hide *;
    var s := Last(ss);
    LastRunControl(m, found, ss);
    IoFirstStep(m, found, s);
    var t := Apply(m, s, IoFirst(s));
    RunAppend(m, found, ss, IoFirst(s));
    if t.io.IoIdle? {
      ext := [t];
      BusyAlone(t);
    } else {
      LastPushed(ss, t);
      var rest := FinishIo(m, found, ss + [t]);
      ext := [t] + rest;
      BusyBefore(t, rest);
      Assoc(ss, [t], rest);
    }
  }

  // The I/O thread becomes idle with the last of these states.
  predicate BusyUntilEnd(ext: seq<State>) {
    ext != [] && ext[|ext| - 1].io.IoIdle? && forall k :: 0 <= k < |ext| - 1 ==> !ext[k].io.IoIdle?
  }

  lemma {:induction false} BusyAlone(t: State)
    requires t.io.IoIdle?
    ensures BusyUntilEnd([t])
  {
  }

  lemma {:induction false} BusyBefore(t: State, rest: seq<State>)
    requires BusyUntilEnd(rest) && !t.io.IoIdle?
    ensures BusyUntilEnd([t] + rest)
  {
  }

  lemma {:induction false} BusyInside(ss: seq<State>, back: seq<State>, rest: seq<State>, k: nat)
    requires BusyUntilEnd(back) && |ss| <= k < |ss| + |back|
    ensures (ss + back + rest)[k].io.IoIdle? <==> k == |ss| + |back| - 1
  {
    assert (ss + back + rest)[k] == back[k - |ss|];
  }

  lemma {:induction false} RunNonEmpty(m: Meta, found: map<nat, bytes>, ss: seq<State>)
    requires Run(m, found, ss)
    ensures |ss| > 0
  {
  }

  /** Some move that makes no new request. */
  function SomeMove(s: State): Step {
    if s.owner.Io? then IoFirst(s)
    else if s.worker.WWaiting? then SpuriousWake
    else WorkerMove(s.worker)
  }

  lemma {:induction false} SomeMoveEnabled(m: Meta, found: map<nat, bytes>, s: State)
    requires Control(m, found, s)
    ensures Enabled(m, s, SomeMove(s)) && IsService(SomeMove(s))
  {
    hide PendingInv, WakeInv, ProgressInv, ValidRequest;
  }

  // The two threads never get stuck: any number of further steps can be taken.
  lemma {:induction false} GoOn(m: Meta, found: map<nat, bytes>, ss: seq<State>, n: nat) returns (ext: seq<State>)
    requires Run(m, found, ss)
    ensures |ss| > 0 && |ext| == n && Run(m, found, ss + ext)
    ensures Undisturbed(m, ss + ext, |ss| - 1, |ss| - 1 + n)
    decreases n
  {
    RunNonEmpty(m, found, ss);
    hide Run, Control, Enabled, Apply, SomeMove, IsService;
    if n == 0 {
      ext := [];
      assert ss + ext == ss;
    } else {
      var front := GoOn(m, found, ss, n - 1);
      var tt := ss + front;
      var s := Last(tt);
      RunControl(m, found, tt, |tt| - 1);
      SomeMoveEnabled(m, found, s);
      var t := Apply(m, s, SomeMove(s));
      RunAppend(m, found, tt, SomeMove(s));
      assert Serves(m, s, t);
      ext := front + [t];
      assert tt + [t] == ss + ext;
      forall k | |ss| - 1 <= k < |ss| - 1 + n
        ensures Serves(m, (ss + ext)[k], (ss + ext)[k + 1])
      {
        if k < |ss| + n - 2 {
          assert Serves(m, tt[k], tt[k + 1]);
        }
      }
    }
  }

  /**
   From every state of every run in which the I/O thread is idle: a piece that passes the check
   can be brought onto the disk, whatever the worker is doing and whatever is queued.
   */
  lemma {:induction false} CanReachDisk(m: Meta, found: map<nat, bytes>, ss: seq<State>, w: WriteRequest) returns (ext: seq<State>)
    requires WellFormed(m) && ss != [] && Run(m, found, ss) && RightLengths(m, found, Last(ss).accepted + [w])
    requires Last(ss).io.IoIdle? && Eligible(m, Last(ss).pending, w)
    ensures Run(m, found, ss + ext) && ext != []
    ensures var s := Last(ext);
            && |s.contents| == |m.files|
            && Holds(m.files, s.contents, PieceBegin(m, w.index), w.data)
            && w.index in s.completed && w.index in s.announced
  {
    SubmitEnabled(m, Last(ss), w);
    hide *;
    var first := Apply(m, Last(ss), Submit(w));
    RunAppend(m, found, ss, Submit(w));
    LastPushed(ss, first);
    var busy := FinishIo(m, found, ss + [first]);
    BusyBefore(first, busy);
    var back := [first] + busy;
    Assoc(ss, [first], busy);
    var rest := ServeOut(m, found, ss, back, w);
    ext := back + rest;
    Assoc(ss, back, rest);
  }

  // The request is in the queue; the worker goes on until it is served.
  lemma {:induction false} ServeOut(m: Meta, found: map<nat, bytes>, ss: seq<State>, back: seq<State>, w: WriteRequest) returns (rest: seq<State>)
    requires WellFormed(m) && ss != [] && back != [] && Run(m, found, ss + back)
    requires RightLengths(m, found, Last(ss).accepted + [w])
    requires Last(ss).io.IoIdle? && Eligible(m, Last(ss).pending, w)
    requires BusyUntilEnd(back) && back[0] == Apply(m, Last(ss), Submit(w))
    ensures Run(m, found, ss + back + rest)
    ensures var s := Last(back + rest);
            && |s.contents| == |m.files|
            && Holds(m.files, s.contents, PieceBegin(m, w.index), w.data)
            && w.index in s.completed && w.index in s.announced
  {
    hide *;
    var a, b := |ss| - 1, |ss| + |back| - 1;
    rest := GoOn(m, found, ss + back, Work(m, Last(back)));
    var tt := ss + back + rest;
    LastOfTail(ss, back, rest);
    forall k | a < k <= b
      ensures tt[k].io.IoIdle? <==> k == b
    {
      BusyInside(ss, back, rest, k);
    }
    IsSubmitted(m, tt, a, b, w);
    ServedOut(m, found, tt, a, b, |tt| - 1, w);
  }

  lemma {:induction false} IsSubmitted(m: Meta, ss: seq<State>, a: nat, b: nat, w: WriteRequest)
    requires a < b < |ss| && ss[a].io.IoIdle? && Eligible(m, ss[a].pending, w) && ss[a + 1] == Apply(m, ss[a], Submit(w))
    requires forall k :: a < k <= b ==> (ss[k].io.IoIdle? <==> k == b)
    ensures Submitted(m, ss, a, b, w)
  {
    hide Eligible, Apply;
  }

  lemma {:induction false} LastOneNotAgain(s: State)
    ensures s.accepted != [] ==> NotAgain(s, |s.accepted| - 1)
  {
  }

  // With nothing else submitted, the request is the last one accepted.
  lemma {:induction false} ServedOut(m: Meta, found: map<nat, bytes>, ss: seq<State>, a: nat, b: nat, c: nat, w: WriteRequest)
    requires WellFormed(m) && Run(m, found, ss) && a < b <= c < |ss| && RightLengths(m, found, ss[a].accepted + [w])
    requires Submitted(m, ss, a, b, w) && Undisturbed(m, ss, b, c) && c - b >= Work(m, ss[b])
    ensures |ss[c].contents| == |m.files| && Holds(m.files, ss[c].contents, PieceBegin(m, w.index), w.data)
    ensures w.index in ss[c].completed && w.index in ss[c].announced
  {
    Returned(m, found, ss, a, b, w);
    assert ss[b].accepted == ss[a].accepted + [w];
    hide *;
    UndisturbedKeepsAccepted(m, ss, b, c);
    ServedUndisturbed(m, found, ss, b, c);
    LastOneNotAgain(ss[c]);
    ProcessedIsOnDisk(m, found, ss, c, |ss[a].accepted|);
  }

  lemma {:induction false} SubmitEnabled(m: Meta, s: State, w: WriteRequest)
    requires s.io.IoIdle? && Eligible(m, s.pending, w)
    ensures Enabled(m, s, Submit(w)) && !Apply(m, s, Submit(w)).io.IoIdle?
  {
  }
}
