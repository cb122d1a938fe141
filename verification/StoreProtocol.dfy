/**
 The two threads that share the piece store of ctorrent/torrentfilemanager.cpp, as a step system.

 The I/O thread checks a finished piece without the lock, then locks, pushes it, unlocks and
 notifies. The worker takes requests from the queue under the lock, writes one file after the
 other, and only then touches the bits, announces the piece and pops the request. Every one of
 these actions is a step of its own, so a run is any interleaving of the two threads, with
 spurious wake-ups of the worker.
 */
module StoreProtocol {
  import opened Bytes
  import opened Layout
  import opened Pieces

  datatype WriteRequest = WriteRequest(index: nat, from: uint32, data: bytes)

  /** Where the I/O thread is inside `writePieceBlock` or `requestPieceBlock`. */
  datatype IoPc =
    | IoIdle
    | IoChecked(w: WriteRequest)   // eligible, not yet locked
    | IoPushing(w: WriteRequest)   // locked, not yet pushed
    | IoMarking(w: WriteRequest)   // pushed, pending bit not yet set
    | IoReadChecked                // a read request passed its check
    | IoReadPushing                // locked, read request not yet pushed
    | IoUnlocking                  // request pushed, lock still held
    | IoNotifying                  // unlocked, not yet notified

  /** Where the worker is inside `thread` and `process_write`. */
  datatype WorkerPc =
    | WTop                         // loop head, lock not held
    | WTest                        // locked, about to test the queues
    | WWaiting                     // blocked in the condition wait, lock released
    | WWoken                       // woken, must take the lock again
    | WWrites                      // head of the write loop
    | WFile(k: nat, cur: Cursor)   // process_write, about to treat file k
    | WClear                       // all files written, pending bit not yet cleared
    | WComplete                    // pending bit cleared, completed bit not yet set
    | WAnnounce                    // completed bit set, completion not yet announced
    | WPop                         // announced, request not yet popped
    | WReads                       // head of the read loop
    | WUnlock                      // about to unlock

  datatype Owner = Free | Io | Worker

  /**
   The shared state, the two program counters, and three histories: every accepted request, how
   many of them were popped, and every completion announced.
   */
  datatype State = State(
    contents: seq<bytes>, completed: set<nat>, pending: set<nat>, queue: seq<WriteRequest>, readQueue: nat,
    owner: Owner, io: IoPc, worker: WorkerPc,
    accepted: seq<WriteRequest>, popped: nat, announced: seq<nat>)

  datatype Step =
    | Submit(w: WriteRequest)      // is_write_eligible, outside the lock
    | SubmitRead                   // is_read_eligible
    | IoLock
    | IoPush
    | IoMark
    | IoUnlock
    | IoNotify
    | WorkerLock
    | WorkerTest
    | SpuriousWake
    | WorkerRelock
    | WorkerFront
    | WorkerFile
    | WorkerClear
    | WorkerComplete
    | WorkerAnnounce
    | WorkerPop
    | WorkerRead(success: bool)
    | WorkerUnlock

  predicate Enabled(m: Meta, s: State, step: Step) {
    match step
    case Submit(_) => s.io.IoIdle?
    case SubmitRead => s.io.IoIdle?
    case IoLock => (s.io.IoChecked? || s.io.IoReadChecked?) && s.owner.Free?
    case IoPush => s.io.IoPushing? || s.io.IoReadPushing?
    case IoMark => s.io.IoMarking?
    case IoUnlock => s.io.IoUnlocking?
    case IoNotify => s.io.IoNotifying?
    case WorkerLock => s.worker.WTop? && s.owner.Free?
    case WorkerTest => s.worker.WTest?
    case SpuriousWake => s.worker.WWaiting?
    case WorkerRelock => s.worker.WWoken? && s.owner.Free?
    case WorkerFront => s.worker.WWrites?
    case WorkerFile =>
      && s.worker.WFile? && s.queue != [] && |s.worker.cur.contents| == |m.files| && s.worker.k <= |m.files|
      && s.worker.cur.off + s.worker.cur.length == |s.queue[0].data|
    case WorkerClear => s.worker.WClear? && s.queue != []
    case WorkerComplete => s.worker.WComplete? && s.queue != []
    case WorkerAnnounce => s.worker.WAnnounce? && s.queue != []
    case WorkerPop => s.worker.WPop? && s.queue != []
    case WorkerRead(_) => s.worker.WReads?
    case WorkerUnlock => s.worker.WUnlock?
  }

  /** `intact` and `is_write_eligible`. */
  predicate Eligible(m: Meta, pending: set<nat>, w: WriteRequest) {
    w.index < m.numPieces && w.index !in pending && m.hashOK(w.index, w.data)
  }

  function Apply(m: Meta, s: State, step: Step): State
    requires Enabled(m, s, step)
  {
    match step
    case Submit(w) => if Eligible(m, s.pending, w) then s.(io := IoChecked(w)) else s
    case SubmitRead => s.(io := IoReadChecked)
    case IoLock => s.(owner := Io, io := if s.io.IoChecked? then IoPushing(s.io.w) else IoReadPushing)
    case IoPush =>
      if s.io.IoPushing? then
        s.(queue := s.queue + [s.io.w], accepted := s.accepted + [s.io.w], io := IoMarking(s.io.w))
      else
        s.(readQueue := s.readQueue + 1, io := IoUnlocking)
    case IoMark => s.(pending := s.pending + {s.io.w.index}, io := IoUnlocking)
    case IoUnlock => s.(owner := Free, io := IoNotifying)
    case IoNotify => s.(io := IoIdle, worker := if s.worker.WWaiting? then WWoken else s.worker)
    case WorkerLock => s.(owner := Worker, worker := WTest)
    case WorkerTest =>
      if s.queue == [] && s.readQueue == 0 then s.(owner := Free, worker := WWaiting) else s.(worker := WWrites)
    case SpuriousWake => s.(worker := WWoken)
    case WorkerRelock => s.(owner := Worker, worker := WWrites)
    case WorkerFront =>
      if s.queue == [] then s.(worker := WReads)
      else s.(worker := WFile(0, StartWrite(s.contents, PieceBegin(m, s.queue[0].index), s.queue[0].data)))
    case WorkerFile =>
      if s.worker.k == |m.files| then s.(worker := WClear)
      else
        var cur := FileStep(m.files, s.worker.cur, s.worker.k, s.queue[0].data);
        s.(contents := cur.contents, worker := WFile(s.worker.k + 1, cur))
    case WorkerClear => s.(pending := s.pending - {s.queue[0].index}, worker := WComplete)
    case WorkerComplete => s.(completed := s.completed + {s.queue[0].index}, worker := WAnnounce)
    case WorkerAnnounce => s.(announced := s.announced + [s.queue[0].index], worker := WPop)
    case WorkerPop => s.(queue := s.queue[1..], popped := s.popped + 1, worker := WWrites)
    case WorkerRead(success) =>
      if s.readQueue > 0 && success then s.(readQueue := s.readQueue - 1) else s.(worker := WUnlock)
    case WorkerUnlock => s.(owner := Free, worker := WTop)
  }

  ghost predicate Next(m: Meta, s: State, t: State) {
    exists step :: Enabled(m, s, step) && t == Apply(m, s, step)
  }

  /**
   A start state: both threads at the beginning and no request made. `found` maps the pieces
   already complete to their bytes; a fresh download starts with no entry.
   */
  ghost predicate Init(m: Meta, found: map<nat, bytes>, s: State) {
    && |s.contents| == |m.files|
    && s.completed == found.Keys
    && (forall c :: c in found ==>
          c < m.numPieces && m.hashOK(c, found[c]) && Holds(m.files, s.contents, PieceBegin(m, c), found[c]))
    && s.pending == {} && s.queue == [] && s.accepted == [] && s.popped == 0 && s.announced == []
    && s.owner == Free && s.io == IoIdle && s.worker == WTop
  }

  /** A run: any sequence of states that follow from one another by steps. */
  ghost predicate Run(m: Meta, found: map<nat, bytes>, ss: seq<State>) {
    && |ss| > 0
    && Init(m, found, ss[0])
    && forall i :: 0 <= i < |ss| - 1 ==> Next(m, ss[i], ss[i + 1])
  }

  // ---------- Sets of indices ----------

  ghost function Indices(q: seq<WriteRequest>): set<nat> {
    set k | 0 <= k < |q| :: q[k].index
  }

  ghost predicate Distinct(q: seq<WriteRequest>) {
    forall i, j :: 0 <= i < j < |q| ==> q[i].index != q[j].index
  }

  lemma {:induction false} IndicesPush(q: seq<WriteRequest>, w: WriteRequest)
    ensures Indices(q + [w]) == Indices(q) + {w.index}
    ensures Distinct(q) && w.index !in Indices(q) ==> Distinct(q + [w])
  {
    var r := q + [w];
    assert forall k :: 0 <= k < |q| ==> r[k] == q[k];
    assert r[|q|] == w;
    forall i | i in Indices(q) + {w.index}
      ensures i in Indices(r)
    {
      if i in Indices(q) {
        var k :| 0 <= k < |q| && q[k].index == i;
        assert r[k].index == i;
      }
    }
  }

  lemma {:induction false} IndicesPop(q: seq<WriteRequest>)
    requires q != [] && Distinct(q)
    ensures Indices(q[1..]) == Indices(q) - {q[0].index}
    ensures Distinct(q[1..])
  {
    var r := q[1..];
    assert forall k :: 0 <= k < |r| ==> r[k] == q[k + 1];
    forall i | i in Indices(q) - {q[0].index}
      ensures i in Indices(r)
    {
      var k :| 0 <= k < |q| && q[k].index == i;
      assert r[k - 1].index == i;
    }
  }

  lemma {:induction false} IndicesFront(q: seq<WriteRequest>)
    requires q != []
    ensures q[0].index in Indices(q) && q[|q| - 1].index in Indices(q)
  {
  }

  // ---------- What holds in every state ----------

  predicate InFront(w: WorkerPc) {
    w.WFile? || w.WClear? || w.WComplete? || w.WAnnounce? || w.WPop?
  }

  predicate WorkerHolds(w: WorkerPc) {
    w.WTest? || w.WWrites? || InFront(w) || w.WReads? || w.WUnlock?
  }

  predicate IoHolds(io: IoPc) {
    io.IoPushing? || io.IoMarking? || io.IoReadPushing? || io.IoUnlocking?
  }

  /** The lock is held by exactly the thread whose program counter is inside a locked section. */
  predicate LockInv(s: State) {
    && (s.owner.Worker? <==> WorkerHolds(s.worker))
    && (s.owner.Io? <==> IoHolds(s.io))
  }

  predicate ValidRequest(m: Meta, w: WriteRequest) {
    w.index < m.numPieces && m.hashOK(w.index, w.data)
  }

  /** Accepted requests are those popped followed by those queued, in order; all passed the check. */
  ghost predicate QueueInv(m: Meta, s: State) {
    && s.popped <= |s.accepted|
    && s.queue == s.accepted[s.popped..]
    && (forall k :: 0 <= k < |s.accepted| ==> ValidRequest(m, s.accepted[k]))
    && (InFront(s.worker) ==> s.queue != [])
    && (s.io.IoChecked? || s.io.IoPushing? ==> ValidRequest(m, s.io.w))
    && (s.io.IoMarking? ==> s.queue != [] && s.queue[|s.queue| - 1] == s.io.w)
  }

  /** Which queued indices have their pending bit set. */
  ghost function MarkedIndices(s: State): set<nat> {
    if s.io.IoMarking? && s.queue != [] then Indices(s.queue) - {s.queue[|s.queue| - 1].index}
    else if (s.worker.WComplete? || s.worker.WAnnounce? || s.worker.WPop?) && s.queue != [] then
      Indices(s.queue) - {s.queue[0].index}
    else Indices(s.queue)
  }

  /** Pending bits and queue agree, and a request that passed the check is still not queued. */
  ghost predicate PendingInv(s: State) {
    && Distinct(s.queue)
    && s.pending == MarkedIndices(s)
    && (s.io.IoChecked? || s.io.IoPushing? ==> s.io.w.index !in s.pending)
  }

  /** A waiting worker with work to do is about to be notified. */
  predicate WakeInv(s: State) {
    s.worker.WWaiting? && (s.queue != [] || s.readQueue > 0) ==>
      s.io.IoMarking? || s.io.IoUnlocking? || s.io.IoNotifying?
  }

  /** How many requests are fully on disk, how many have their completed bit, how many were announced. */
  function Wrote(s: State): nat {
    s.popped + if s.worker.WClear? || s.worker.WComplete? || s.worker.WAnnounce? || s.worker.WPop? then 1 else 0
  }

  function Marked(s: State): nat {
    s.popped + if s.worker.WAnnounce? || s.worker.WPop? then 1 else 0
  }

  function Told(s: State): nat {
    s.popped + if s.worker.WPop? then 1 else 0
  }

  function IndexList(q: seq<WriteRequest>): seq<nat> {
    seq(|q|, k requires 0 <= k < |q| => q[k].index)
  }

  /** Completed bits and announcements follow the accepted requests one by one. */
  ghost predicate ProgressInv(found: map<nat, bytes>, s: State) {
    && Wrote(s) <= |s.accepted|
    && s.completed == found.Keys + Indices(s.accepted[..Marked(s)])
    && s.announced == IndexList(s.accepted[..Told(s)])
  }

  /** The bytes last written to each piece by the requests `acc`, on top of those found at the start. */
  ghost function Latest(found: map<nat, bytes>, acc: seq<WriteRequest>): (r: map<nat, bytes>)
    ensures r.Keys == found.Keys + Indices(acc)
  {
    if acc == [] then
      assert Indices(acc) == {};
      found
    else
      var n := |acc| - 1;
      assert acc == acc[..n] + [acc[n]];
      IndicesPush(acc[..n], acc[n]);
      Latest(found, acc[..n])[acc[n].index := acc[n].data]
  }

  /** The disk holds, for every piece ever written except one being rewritten, the bytes last written to it. */
  ghost predicate DiskInv(m: Meta, found: map<nat, bytes>, s: State) {
    && |s.contents| == |m.files|
    && Wrote(s) <= |s.accepted|
    && var disk := Latest(found, s.accepted[..Wrote(s)]);
       && (forall c :: c in disk ==> c < m.numPieces && m.hashOK(c, disk[c]))
       && (forall c :: c in disk && !(s.worker.WFile? && s.queue != [] && s.queue[0].index == c)
             ==> Holds(m.files, s.contents, PieceBegin(m, c), disk[c]))
  }

  /** The loop variables of `process_write`, for any layout of files; and nothing is queued when the reads have their turn. */
  predicate CursorInv(m: Meta, s: State) {
    && |s.contents| == |m.files|
    && (s.worker.WFile? ==>
          && s.queue != [] && s.worker.cur.contents == s.contents && s.worker.k <= |m.files|
          && s.worker.cur.off + s.worker.cur.length == |s.queue[0].data|)
    && (s.worker.WReads? || s.worker.WUnlock? ==> s.queue == [])
  }

  /** What holds of the two threads, their queues and the bits, whatever the metainfo file and the hash check. */
  ghost predicate Control(m: Meta, found: map<nat, bytes>, s: State) {
    && LockInv(s)
    && QueueInv(m, s)
    && PendingInv(s)
    && WakeInv(s)
    && ProgressInv(found, s)
    && CursorInv(m, s)
  }

  /**
   The data found at the start and the data of the requests `acc` have the lengths of their
   pieces. The hash check does not look at lengths, so this is a premise on the run.
   */
  ghost predicate RightLengths(m: Meta, found: map<nat, bytes>, acc: seq<WriteRequest>) {
    && m.pieceLength > 0
    && (forall c :: c in found ==> |found[c]| == PieceLength(m, c))
    && (forall k :: 0 <= k < |acc| ==> |acc[k].data| == PieceLength(m, acc[k].index))
  }

  /** They are pieces of `truth`: no wrong data has passed the hash check so far. */
  ghost predicate TrueData(m: Meta, truth: bytes, found: map<nat, bytes>, acc: seq<WriteRequest>) {
    && WellFormed(m) && |truth| == m.Total()
    && (forall c :: c in found ==> c < m.numPieces && found[c] == PieceOf(m, truth, c))
    && (forall k :: 0 <= k < |acc| ==> acc[k].index < m.numPieces && acc[k].data == PieceOf(m, truth, acc[k].index))
  }

  /** Inside `process_write`: what the loop variables say about the files. */
  ghost predicate WriteInv(m: Meta, s: State) {
    s.worker.WFile? ==>
      && s.queue != []
      && var cur, w := s.worker.cur, s.queue[0];
         && cur.contents == s.contents
         && Writing(m.files, cur, s.worker.k, PieceBegin(m, w.index), w.data)
         && cur.off <= |w.data|
         && Holds(m.files, s.contents, PieceBegin(m, w.index), w.data[..cur.off])
  }

  /** While a piece that is already on disk is written again, its range holds the new bytes up to `off` and the old ones behind. */
  ghost predicate MixInv(m: Meta, found: map<nat, bytes>, s: State) {
    s.worker.WFile? && s.queue != [] && Wrote(s) <= |s.accepted| ==>
      var w, disk, off := s.queue[0], Latest(found, s.accepted[..Wrote(s)]), s.worker.cur.off;
      w.index in disk ==>
        && off <= |w.data| == |disk[w.index]|
        && |s.contents| == |m.files|
        && Holds(m.files, s.contents, PieceBegin(m, w.index), Mixed(w.data, disk[w.index], off))
  }

  ghost predicate Inv(m: Meta, found: map<nat, bytes>, s: State) {
    && Control(m, found, s)
    && DiskInv(m, found, s)
    && WriteInv(m, s)
    && MixInv(m, found, s)
  }

  // ---------- Every step keeps the invariant ----------

  lemma {:induction false} LockStep(m: Meta, s: State, step: Step)
    requires Enabled(m, s, step) && LockInv(s)
    ensures LockInv(Apply(m, s, step))
  {
    hide FileStep, StartWrite, PieceBegin, Eligible;
  }

  lemma {:induction false} WakeStep(m: Meta, s: State, step: Step)
    requires Enabled(m, s, step) && LockInv(s) && WakeInv(s)
    ensures WakeInv(Apply(m, s, step))
  {
    hide FileStep, StartWrite, PieceBegin, Eligible;
  }

  lemma {:induction false} QueueStep(m: Meta, s: State, step: Step)
    requires Enabled(m, s, step) && LockInv(s) && QueueInv(m, s)
    ensures QueueInv(m, Apply(m, s, step))
  {
    hide FileStep, StartWrite, PieceBegin, ValidRequest;
    match step
    case Submit(w) =>
      EligibleIsValid(m, s.pending, w);
    case _ =>
  }

  lemma {:induction false} EligibleIsValid(m: Meta, pending: set<nat>, w: WriteRequest)
    ensures Eligible(m, pending, w) ==> ValidRequest(m, w)
  {
  }

  lemma {:induction false} PendingPush(m: Meta, s: State)
    requires Enabled(m, s, IoPush) && LockInv(s) && PendingInv(s)
    ensures PendingInv(Apply(m, s, IoPush))
  {
    hide Indices, Distinct;
    if s.io.IoPushing? {
      IndicesPush(s.queue, s.io.w);
    }
  }

  lemma {:induction false} PendingPop(m: Meta, s: State)
    requires Enabled(m, s, WorkerPop) && LockInv(s) && PendingInv(s)
    ensures PendingInv(Apply(m, s, WorkerPop))
  {
    hide Indices, Distinct;
    IndicesPop(s.queue);
  }

  lemma {:induction false} PendingBits(m: Meta, s: State, step: Step)
    requires step.Submit? || step.IoMark? || step.WorkerClear?
    requires Enabled(m, s, step) && LockInv(s) && QueueInv(m, s) && PendingInv(s)
    ensures PendingInv(Apply(m, s, step))
  {
    hide Indices, Distinct, ValidRequest;
    if s.queue != [] {
      IndicesFront(s.queue);
    }
  }

  // The other steps change neither queue nor bits, only where the threads are.
  lemma {:induction false} PendingFrame(m: Meta, s: State, step: Step)
    requires !step.IoPush? && !step.WorkerPop? && !step.Submit? && !step.IoMark? && !step.WorkerClear?
    requires Enabled(m, s, step) && LockInv(s) && QueueInv(m, s) && PendingInv(s)
    ensures PendingInv(Apply(m, s, step))
  {
    hide FileStep, StartWrite, PieceBegin, Indices, Distinct, ValidRequest;
  }

  lemma {:induction false} PendingStep(m: Meta, s: State, step: Step)
    requires Enabled(m, s, step) && LockInv(s) && QueueInv(m, s) && PendingInv(s)
    ensures PendingInv(Apply(m, s, step))
  {
    hide *;
    match step
    case IoPush => PendingPush(m, s);
    case WorkerPop => PendingPop(m, s);
    case Submit(_) => PendingBits(m, s, step);
    case IoMark => PendingBits(m, s, step);
    case WorkerClear => PendingBits(m, s, step);
    case _ => PendingFrame(m, s, step);
  }

  lemma {:induction false} ProgressMark(m: Meta, found: map<nat, bytes>, s: State)
    requires Enabled(m, s, WorkerComplete) && QueueInv(m, s) && ProgressInv(found, s)
    ensures ProgressInv(found, Apply(m, s, WorkerComplete))
  {
    hide Indices, ValidRequest;
    assert s.accepted[..s.popped + 1] == s.accepted[..s.popped] + [s.queue[0]];
    IndicesPush(s.accepted[..s.popped], s.queue[0]);
  }

  lemma {:induction false} ProgressTell(m: Meta, found: map<nat, bytes>, s: State)
    requires Enabled(m, s, WorkerAnnounce) && QueueInv(m, s) && ProgressInv(found, s)
    ensures ProgressInv(found, Apply(m, s, WorkerAnnounce))
  {
    hide Indices, ValidRequest;
    assert s.accepted[..s.popped + 1] == s.accepted[..s.popped] + [s.queue[0]];
  }

  lemma {:induction false} ProgressPush(m: Meta, found: map<nat, bytes>, s: State)
    requires Enabled(m, s, IoPush) && ProgressInv(found, s)
    ensures ProgressInv(found, Apply(m, s, IoPush))
  {
    hide Indices;
    var t := Apply(m, s, IoPush);
    assert t.accepted[..Marked(s)] == s.accepted[..Marked(s)];
    assert t.accepted[..Told(s)] == s.accepted[..Told(s)];
  }

  lemma {:induction false} ProgressFrame(m: Meta, found: map<nat, bytes>, s: State, step: Step)
    requires !step.IoPush? && !step.WorkerComplete? && !step.WorkerAnnounce?
    requires Enabled(m, s, step) && LockInv(s) && QueueInv(m, s) && ProgressInv(found, s)
    ensures ProgressInv(found, Apply(m, s, step))
  {
    hide FileStep, StartWrite, PieceBegin, Indices, IndexList, ValidRequest, Eligible;
  }

  lemma {:induction false} ProgressStep(m: Meta, found: map<nat, bytes>, s: State, step: Step)
    requires Enabled(m, s, step) && LockInv(s) && QueueInv(m, s) && ProgressInv(found, s)
    ensures ProgressInv(found, Apply(m, s, step))
  {
    hide *;
    match step
    case WorkerComplete => ProgressMark(m, found, s);
    case WorkerAnnounce => ProgressTell(m, found, s);
    case IoPush => ProgressPush(m, found, s);
    case _ => ProgressFrame(m, found, s, step);
  }

  lemma {:induction false} CursorFile(m: Meta, s: State)
    requires Enabled(m, s, WorkerFile) && CursorInv(m, s)
    ensures CursorInv(m, Apply(m, s, WorkerFile))
  {
    if s.worker.k < |m.files| {
      FileStepShape(m.files, s.worker.cur, s.worker.k, s.queue[0].data);
    }
    hide FileStep;
  }

  lemma {:induction false} CursorStep(m: Meta, s: State, step: Step)
    requires Enabled(m, s, step) && LockInv(s) && QueueInv(m, s) && CursorInv(m, s)
    ensures CursorInv(m, Apply(m, s, step))
  {
    hide FileStep, PieceBegin, Eligible, ValidRequest;
    if step.WorkerFile? {
      CursorFile(m, s);
    }
  }

  lemma {:induction false} ControlInit(m: Meta, found: map<nat, bytes>, s: State)
    requires Init(m, found, s)
    ensures Control(m, found, s)
  {
    assert Indices([]) == {};
    hide Holds, PieceBegin;
  }

  /** Every step of either thread keeps the queues, the lock, the bits and the announcements in order, for any metainfo file. */
  lemma {:induction false} ControlStep(m: Meta, found: map<nat, bytes>, s: State, step: Step)
    requires Enabled(m, s, step) && Control(m, found, s)
    ensures Control(m, found, Apply(m, s, step))
  {
    hide *;
    ControlParts(m, found, s);
    LockStep(m, s, step);
    QueueStep(m, s, step);
    PendingStep(m, s, step);
    WakeStep(m, s, step);
    ProgressStep(m, found, s, step);
    CursorStep(m, s, step);
    ControlParts(m, found, Apply(m, s, step));
  }

  lemma {:induction false} ControlParts(m: Meta, found: map<nat, bytes>, s: State)
    ensures Control(m, found, s) <==>
            && LockInv(s) && QueueInv(m, s) && PendingInv(s) && WakeInv(s) && ProgressInv(found, s) && CursorInv(m, s)
  {
    hide LockInv, QueueInv, PendingInv, WakeInv, ProgressInv, CursorInv;
  }

  // ---------- The lengths of the data on disk ----------

  lemma {:induction false} LengthsPrefix(m: Meta, found: map<nat, bytes>, acc: seq<WriteRequest>, later: seq<WriteRequest>)
    requires acc <= later && RightLengths(m, found, later)
    ensures RightLengths(m, found, acc)
  {
    hide PieceLength;
  }

  lemma {:induction false} LatestLengths(m: Meta, found: map<nat, bytes>, acc: seq<WriteRequest>)
    requires RightLengths(m, found, acc)
    ensures m.pieceLength > 0
    ensures forall c :: c in Latest(found, acc) ==> |Latest(found, acc)[c]| == PieceLength(m, c)
    decreases |acc|
  {
    hide PieceLength;
    if acc != [] {
      LatestLengths(m, found, acc[..|acc| - 1]);
    }
  }

  lemma {:induction false} TrueIsTorrent(m: Meta, truth: bytes, found: map<nat, bytes>, acc: seq<WriteRequest>)
    requires TrueData(m, truth, found, acc)
    ensures WellFormed(m) && |truth| == m.Total()
  {
    hide WellFormed, PieceOf;
  }

  lemma {:induction false} TruePrefix(m: Meta, truth: bytes, found: map<nat, bytes>, acc: seq<WriteRequest>, later: seq<WriteRequest>)
    requires acc <= later && TrueData(m, truth, found, later)
    ensures TrueData(m, truth, found, acc)
  {
    hide PieceOf, WellFormed;
  }

  lemma {:induction false} LatestIsTrue(m: Meta, truth: bytes, found: map<nat, bytes>, acc: seq<WriteRequest>)
    requires TrueData(m, truth, found, acc)
    ensures WellFormed(m) && |truth| == m.Total()
    ensures forall c :: c in Latest(found, acc) ==> c < m.numPieces && Latest(found, acc)[c] == PieceOf(m, truth, c)
    decreases |acc|
  {
    hide PieceOf, WellFormed;
    if acc != [] {
      LatestIsTrue(m, truth, found, acc[..|acc| - 1]);
    }
  }

  lemma {:induction false} TrueLengths(m: Meta, truth: bytes, found: map<nat, bytes>, acc: seq<WriteRequest>)
    requires TrueData(m, truth, found, acc)
    ensures RightLengths(m, found, acc)
  {
    hide PieceLength, PieceBegin;
    forall c | c in found
      ensures |found[c]| == PieceLength(m, c)
    {
      PieceFits(m, c);
    }
    forall k | 0 <= k < |acc|
      ensures |acc[k].data| == PieceLength(m, acc[k].index)
    {
      PieceFits(m, acc[k].index);
    }
  }

  lemma {:induction false} LatestPush(found: map<nat, bytes>, acc: seq<WriteRequest>, w: WriteRequest)
    ensures Latest(found, acc + [w]) == Latest(found, acc)[w.index := w.data]
  {
    assert (acc + [w])[..|acc|] == acc;
  }

  // A step that leaves files, write progress and the front of the queue alone keeps the disk claim.
  lemma {:induction false} DiskFrame(m: Meta, found: map<nat, bytes>, s: State, t: State)
    requires DiskInv(m, found, s)
    requires t.contents == s.contents && Wrote(t) == Wrote(s)
    requires Wrote(s) <= |t.accepted| && t.accepted[..Wrote(s)] == s.accepted[..Wrote(s)]
    requires s.worker.WFile? ==> t.worker.WFile? && s.queue != [] && t.queue != [] && s.queue[0] == t.queue[0]
    ensures DiskInv(m, found, t)
  {
  }

  // The request at the front of the queue fits into the files.
  lemma {:induction false} FrontFits(m: Meta, found: map<nat, bytes>, s: State)
    requires WellFormed(m) && RightLengths(m, found, s.accepted) && QueueInv(m, s) && s.queue != []
    ensures var w := s.queue[0];
            && |w.data| == PieceLength(m, w.index) && ValidRequest(m, w) && s.popped < |s.accepted| && s.accepted[s.popped] == w
            && PieceBegin(m, w.index) + |w.data| <= m.Total()
  {
    hide PieceBegin, PieceLength, Contiguous;
    var w := s.queue[0];
    assert s.accepted[s.popped] == w;
    PieceFits(m, w.index);
  }

  lemma {:induction false} WellFormedLayout(m: Meta)
    requires WellFormed(m)
    ensures Contiguous(m.files)
  {
  }

  // Rounds of process_write disturb no other piece.
  lemma {:induction false} DiskFileStep(m: Meta, found: map<nat, bytes>, s: State)
    requires WellFormed(m) && RightLengths(m, found, s.accepted)
    requires QueueInv(m, s) && DiskInv(m, found, s) && WriteInv(m, s)
    requires s.worker.WFile? && s.worker.k < |m.files|
    ensures Enabled(m, s, WorkerFile)
    ensures DiskInv(m, found, Apply(m, s, WorkerFile))
    ensures WriteInv(m, Apply(m, s, WorkerFile))
  {
    hide WellFormed, RightLengths, PieceLength, QueueInv, FileStep, Writing, PieceBegin, Holds, Latest, Contiguous, TotalLength;
    var w, cur, k := s.queue[0], s.worker.cur, s.worker.k;
    var at := PieceBegin(m, w.index);
    FrontFits(m, found, s);
    WellFormedLayout(m);
    WritingOffsets(m.files, cur, k, at, w.data);
    assert Enabled(m, s, WorkerFile);
    var t := Apply(m, s, WorkerFile);
    FileStepCounts(m.files, cur, k, at, w.data);
    FileStepExtends(m.files, cur, k, at, w.data);
    var disk := Latest(found, s.accepted[..Wrote(s)]);
    LengthsPrefix(m, found, s.accepted[..Wrote(s)], s.accepted);
    LatestLengths(m, found, s.accepted[..Wrote(s)]);
    forall c | c in disk && c != w.index
      ensures Holds(m.files, t.contents, PieceBegin(m, c), disk[c])
    {
      OtherPieceKept(m, s.worker.cur, k, w, c, disk[c]);
    }
  }

  lemma {:induction false} WritingOffsets(fs: seq<FileInfo>, cur: Cursor, k: nat, at: nat, data: bytes)
    requires Writing(fs, cur, k, at, data)
    ensures |cur.contents| == |fs| && k <= |fs| && cur.off + cur.length == |data|
  {
  }

  lemma {:induction false} OtherPieceKept(m: Meta, cur: Cursor, k: nat, w: WriteRequest, c: nat, d: bytes)
    requires WellFormed(m) && w.index < m.numPieces && c < m.numPieces && c != w.index
    requires |d| == PieceLength(m, c) && |w.data| == PieceLength(m, w.index)
    requires k < |m.files| && Writing(m.files, cur, k, PieceBegin(m, w.index), w.data)
    requires Holds(m.files, cur.contents, PieceBegin(m, c), d)
    ensures |FileStep(m.files, cur, k, w.data).contents| == |m.files|
    ensures Holds(m.files, FileStep(m.files, cur, k, w.data).contents, PieceBegin(m, c), d)
  {
    hide FileStep, Writing, PieceBegin, Holds, PieceLength, Contiguous;
    if c < w.index {
      PiecesDisjoint(m, c, w.index);
    } else {
      PiecesDisjoint(m, w.index, c);
    }
    FileStepKeeps(m.files, cur, k, PieceBegin(m, w.index), w.data, PieceBegin(m, c), d);
  }

  // Past the last file nothing is left to write.
  lemma {:induction false} WritingEnds(fs: seq<FileInfo>, cur: Cursor, at: nat, data: bytes)
    requires Writing(fs, cur, |fs|, at, data) && at + |data| <= TotalLength(fs)
    ensures cur.off == |data|
  {
    assert fs[..|fs|] == fs;
  }

  // When the loop is through, the whole piece is on disk.
  lemma {:induction false} DiskFileEnd(m: Meta, found: map<nat, bytes>, s: State)
    requires WellFormed(m) && RightLengths(m, found, s.accepted)
    requires QueueInv(m, s) && DiskInv(m, found, s) && WriteInv(m, s)
    requires s.worker.WFile? && s.worker.k == |m.files|
    ensures Enabled(m, s, WorkerFile)
    ensures DiskInv(m, found, Apply(m, s, WorkerFile)) && WriteInv(m, Apply(m, s, WorkerFile))
  {
    hide WellFormed, RightLengths, PieceLength, QueueInv, FileStep, PieceBegin, Holds, Latest, TotalLength, Writing;
    var w, cur := s.queue[0], s.worker.cur;
    FrontFits(m, found, s);
    WritingOffsets(m.files, cur, s.worker.k, PieceBegin(m, w.index), w.data);
    WritingEnds(m.files, cur, PieceBegin(m, w.index), w.data);
    assert w.data[..cur.off] == w.data;
    assert s.accepted[..s.popped + 1] == s.accepted[..s.popped] + [w];
    LatestPush(found, s.accepted[..s.popped], w);
    hide ValidRequest, DiskInv;
    DiskAfter(m, found, s, Apply(m, s, WorkerFile), w);
  }

  // The piece just written joins the pieces on disk.
  lemma {:induction false} DiskAfter(m: Meta, found: map<nat, bytes>, s: State, t: State, w: WriteRequest)
    requires DiskInv(m, found, s) && s.worker.WFile? && s.queue != [] && s.queue[0] == w
    requires t.contents == s.contents && !t.worker.WFile? && Wrote(t) <= |t.accepted|
    requires Latest(found, t.accepted[..Wrote(t)]) == Latest(found, s.accepted[..Wrote(s)])[w.index := w.data]
    requires w.index < m.numPieces && m.hashOK(w.index, w.data) && Holds(m.files, t.contents, PieceBegin(m, w.index), w.data)
    ensures DiskInv(m, found, t)
  {
    hide Latest, Holds, PieceBegin, Wrote;
  }

  // A write starts with nothing of its own on disk yet.
  lemma {:induction false} StartWriting(fs: seq<FileInfo>, cs: seq<bytes>, at: nat, data: bytes)
    requires |fs| == |cs| && at <= TotalLength(fs)
    ensures Writing(fs, StartWrite(cs, at, data), 0, at, data)
    ensures Holds(fs, cs, at, data[..0])
  {
    BackedNowhere(fs, cs, at);
    assert data[..0] == [];
    hide Image, Backed;
  }

  lemma {:induction false} DiskFront(m: Meta, found: map<nat, bytes>, s: State)
    requires WellFormed(m) && RightLengths(m, found, s.accepted)
    requires QueueInv(m, s) && DiskInv(m, found, s)
    requires s.worker.WWrites? && s.queue != []
    ensures DiskInv(m, found, Apply(m, s, WorkerFront))
    ensures WriteInv(m, Apply(m, s, WorkerFront))
  {
    hide WellFormed, RightLengths, PieceLength, QueueInv, PieceBegin, Holds, Latest, TotalLength, Writing;
    var w := s.queue[0];
    FrontFits(m, found, s);
    StartWriting(m.files, s.contents, PieceBegin(m, w.index), w.data);
  }

  lemma {:induction false} DiskPush(m: Meta, found: map<nat, bytes>, s: State)
    requires Enabled(m, s, IoPush) && LockInv(s) && DiskInv(m, found, s)
    ensures DiskInv(m, found, Apply(m, s, IoPush)) && WriteInv(m, Apply(m, s, IoPush))
  {
    hide Latest, Holds, Writing;
    var t := Apply(m, s, IoPush);
    assert t.accepted[..Wrote(s)] == s.accepted[..Wrote(s)];
    DiskFrame(m, found, s, t);
  }

  lemma {:induction false} DiskRest(m: Meta, found: map<nat, bytes>, s: State, step: Step)
    requires !step.IoPush? && !step.WorkerFile? && !(step.WorkerFront? && s.queue != [])
    requires Enabled(m, s, step) && LockInv(s) && QueueInv(m, s) && DiskInv(m, found, s) && WriteInv(m, s)
    ensures DiskInv(m, found, Apply(m, s, step)) && WriteInv(m, Apply(m, s, step))
  {
    hide FileStep, StartWrite, PieceBegin, Latest, Holds, Writing, ValidRequest, Eligible;
    DiskFrame(m, found, s, Apply(m, s, step));
  }

  lemma {:induction false} DiskStep(m: Meta, found: map<nat, bytes>, s: State, step: Step)
    requires WellFormed(m) && RightLengths(m, found, s.accepted)
    requires Enabled(m, s, step) && LockInv(s) && QueueInv(m, s) && DiskInv(m, found, s) && WriteInv(m, s)
    ensures DiskInv(m, found, Apply(m, s, step)) && WriteInv(m, Apply(m, s, step))
  {
    EnabledPc(m, s, step);
    hide *;
    if step.IoPush? {
      DiskPush(m, found, s);
    } else if step.WorkerFile? {
      if s.worker.k == |m.files| {
        DiskFileEnd(m, found, s);
      } else {
        DiskFileStep(m, found, s);
      }
    } else if step.WorkerFront? && s.queue != [] {
      DiskFront(m, found, s);
    } else {
      DiskRest(m, found, s, step);
    }
  }

  // A rewrite starts on the old bytes.
  lemma {:induction false} MixFront(m: Meta, found: map<nat, bytes>, s: State)
    requires WellFormed(m) && RightLengths(m, found, s.accepted)
    requires QueueInv(m, s) && DiskInv(m, found, s)
    requires s.worker.WWrites? && s.queue != []
    ensures MixInv(m, found, Apply(m, s, WorkerFront))
  {
    hide *;
    FrontState(m, s);
    FrontIsValid(m, s);
    var w, c := s.queue[0], s.queue[0].index;
    WroteWithin(m, found, s);
    FrontFits(m, found, s);
    LengthsPrefix(m, found, s.accepted[..Wrote(s)], s.accepted);
    LatestLengths(m, found, s.accepted[..Wrote(s)]);
    if c in Latest(found, s.accepted[..Wrote(s)]) {
      DiskHoldsOther(m, found, s, c);
      MixedEnds(w.data, Latest(found, s.accepted[..Wrote(s)])[c], 0);
    }
    MixIs(m, found, Apply(m, s, WorkerFront));
  }

  lemma {:induction false} FrontState(m: Meta, s: State)
    requires s.worker.WWrites? && s.queue != []
    ensures Enabled(m, s, WorkerFront)
    ensures var t := Apply(m, s, WorkerFront);
            && t.worker.WFile? && t.worker.cur.off == 0
            && t.contents == s.contents && t.queue == s.queue && t.accepted == s.accepted && Wrote(t) == Wrote(s)
    ensures !Rewriting(s, s.queue[0].index)
  {
  }

  lemma {:induction false} WroteWithin(m: Meta, found: map<nat, bytes>, s: State)
    requires DiskInv(m, found, s)
    ensures Wrote(s) <= |s.accepted|
  {
    hide Latest;
  }

  // A piece that is not being written holds what was last written to it.
  lemma {:induction false} DiskHoldsOther(m: Meta, found: map<nat, bytes>, s: State, c: nat)
    requires DiskInv(m, found, s) && !Rewriting(s, c) && c in Latest(found, s.accepted[..Wrote(s)])
    ensures var d := Latest(found, s.accepted[..Wrote(s)])[c];
            m.hashOK(c, d) && |s.contents| == |m.files| && Holds(m.files, s.contents, PieceBegin(m, c), d)
  {
    hide Latest, Holds, PieceBegin;
  }

  lemma {:induction false} MixIs(m: Meta, found: map<nat, bytes>, s: State)
    requires s.worker.WFile? && s.queue != [] && Wrote(s) <= |s.accepted|
    ensures MixInv(m, found, s) <==>
              var w, disk, off := s.queue[0], Latest(found, s.accepted[..Wrote(s)]), s.worker.cur.off;
              w.index in disk ==>
                && off <= |w.data| == |disk[w.index]|
                && |s.contents| == |m.files|
                && Holds(m.files, s.contents, PieceBegin(m, w.index), Mixed(w.data, disk[w.index], off))
  {
    hide Latest, Holds, PieceBegin, Mixed, Wrote;
  }

  lemma {:induction false} MixIdle(m: Meta, found: map<nat, bytes>, s: State)
    requires !s.worker.WFile?
    ensures MixInv(m, found, s)
  {
  }

  // A round moves the joint between new and old bytes on.
  lemma {:induction false} MixFile(m: Meta, found: map<nat, bytes>, s: State)
    requires WellFormed(m) && Enabled(m, s, WorkerFile) && WriteInv(m, s) && DiskInv(m, found, s) && MixInv(m, found, s)
    ensures MixInv(m, found, Apply(m, s, WorkerFile))
  {
    hide *;
    FileState(m, s);
    var t := Apply(m, s, WorkerFile);
    if !t.worker.WFile? {
      MixIdle(m, found, t);
    } else {
      WellFormedLayout(m);
      WroteWithin(m, found, s);
      MixIs(m, found, s);
      MixIs(m, found, t);
      var w, disk := s.queue[0], Latest(found, s.accepted[..Wrote(s)]);
      if w.index in disk {
        FileStepSplices(m.files, s.worker.cur, s.worker.k, PieceBegin(m, w.index), w.data, disk[w.index]);
      }
    }
  }

  lemma {:induction false} FileState(m: Meta, s: State)
    requires Enabled(m, s, WorkerFile) && WriteInv(m, s)
    ensures s.worker.WFile? && s.queue != [] && s.worker.cur.contents == s.contents
    ensures Writing(m.files, s.worker.cur, s.worker.k, PieceBegin(m, s.queue[0].index), s.queue[0].data)
    ensures var t := Apply(m, s, WorkerFile);
            if s.worker.k < |m.files| then
              && t.worker.WFile? && t.worker.cur == FileStep(m.files, s.worker.cur, s.worker.k, s.queue[0].data)
              && t.contents == t.worker.cur.contents && t.queue == s.queue && t.accepted == s.accepted && Wrote(t) == Wrote(s)
            else !t.worker.WFile?
  {
    hide FileStep, Writing, PieceBegin, Holds;
  }

  lemma {:induction false} MixPush(m: Meta, found: map<nat, bytes>, s: State)
    requires Enabled(m, s, IoPush) && LockInv(s) && DiskInv(m, found, s) && MixInv(m, found, s)
    ensures MixInv(m, found, Apply(m, s, IoPush))
  {
    hide Latest, Holds, Mixed;
    var t := Apply(m, s, IoPush);
    assert t.accepted[..Wrote(s)] == s.accepted[..Wrote(s)];
  }

  lemma {:induction false} MixRest(m: Meta, found: map<nat, bytes>, s: State, step: Step)
    requires !step.IoPush? && !step.WorkerFile? && !(step.WorkerFront? && s.queue != [])
    requires Enabled(m, s, step) && LockInv(s) && MixInv(m, found, s)
    ensures MixInv(m, found, Apply(m, s, step))
  {
    hide FileStep, StartWrite, PieceBegin, Latest, Holds, Mixed, Eligible;
  }

  lemma {:induction false} MixStep(m: Meta, found: map<nat, bytes>, s: State, step: Step)
    requires WellFormed(m) && RightLengths(m, found, s.accepted) && Enabled(m, s, step)
    requires LockInv(s) && QueueInv(m, s) && DiskInv(m, found, s) && WriteInv(m, s) && MixInv(m, found, s)
    ensures MixInv(m, found, Apply(m, s, step))
  {
    EnabledPc(m, s, step);
    hide *;
    if step.IoPush? {
      MixPush(m, found, s);
    } else if step.WorkerFile? {
      MixFile(m, found, s);
    } else if step.WorkerFront? && s.queue != [] {
      MixFront(m, found, s);
    } else {
      MixRest(m, found, s, step);
    }
  }

  lemma {:induction false} EnabledPc(m: Meta, s: State, step: Step)
    requires Enabled(m, s, step)
    ensures step.WorkerFile? ==> s.worker.WFile? && s.worker.k <= |m.files|
    ensures step.WorkerFront? ==> s.worker.WWrites?
  {
  }

  lemma {:induction false} InvInit(m: Meta, found: map<nat, bytes>, s: State)
    requires Init(m, found, s)
    ensures Inv(m, found, s)
  {
    ControlInit(m, found, s);
    hide Holds, PieceBegin, Control;
  }

  /** Every step of either thread keeps the invariant, as long as the data accepted has the right lengths. */
  lemma {:induction false} InvStep(m: Meta, found: map<nat, bytes>, s: State, step: Step)
    requires WellFormed(m) && RightLengths(m, found, s.accepted)
    requires Enabled(m, s, step) && Inv(m, found, s)
    ensures Inv(m, found, Apply(m, s, step))
  {
    hide *;
    InvParts(m, found, s);
    ControlParts(m, found, s);
    ControlStep(m, found, s, step);
    DiskStep(m, found, s, step);
    MixStep(m, found, s, step);
    InvParts(m, found, Apply(m, s, step));
  }

  lemma {:induction false} InvParts(m: Meta, found: map<nat, bytes>, s: State)
    ensures Inv(m, found, s) <==> Control(m, found, s) && DiskInv(m, found, s) && WriteInv(m, s) && MixInv(m, found, s)
  {
    hide Control, DiskInv, WriteInv, MixInv;
  }

  // ---------- Whole runs ----------

  lemma {:induction false} NextControl(m: Meta, found: map<nat, bytes>, s: State, t: State)
    requires Next(m, s, t) && Control(m, found, s)
    ensures Control(m, found, t)
  {
    var step :| Enabled(m, s, step) && t == Apply(m, s, step);
    hide *;
    ControlStep(m, found, s, step);
  }

  lemma {:induction false} NextInv(m: Meta, found: map<nat, bytes>, s: State, t: State)
    requires WellFormed(m) && RightLengths(m, found, s.accepted)
    requires Next(m, s, t) && Inv(m, found, s)
    ensures Inv(m, found, t)
  {
    var step :| Enabled(m, s, step) && t == Apply(m, s, step);
    hide *;
    InvStep(m, found, s, step);
  }

  /** A read request is queued by exactly one step and taken off by exactly one successful read. */
  lemma {:induction false} ReadStep(m: Meta, s: State, step: Step)
    requires Enabled(m, s, step)
    ensures Apply(m, s, step).readQueue
         == s.readQueue + (if step.IoPush? && s.io.IoReadPushing? then 1 else 0)
            - (if step == WorkerRead(true) && s.readQueue > 0 then 1 else 0)
  {
    hide FileStep, StartWrite, PieceBegin, Eligible;
  }

  lemma {:induction false} NextMonotone(m: Meta, s: State, t: State)
    requires Next(m, s, t)
    ensures s.completed <= t.completed
    ensures s.accepted <= t.accepted && s.announced <= t.announced
    ensures s.popped <= t.popped <= s.popped + 1
  {
    var step :| Enabled(m, s, step) && t == Apply(m, s, step);
    hide *;
    StepMonotone(m, s, step);
  }

  lemma {:induction false} StepMonotone(m: Meta, s: State, step: Step)
    requires Enabled(m, s, step)
    ensures var t := Apply(m, s, step);
            && s.completed <= t.completed
            && s.accepted <= t.accepted && s.announced <= t.announced
            && s.popped <= t.popped <= s.popped + 1
  {
    hide FileStep, StartWrite, PieceBegin, Eligible;
  }

  /**
   In every state of every run, whatever the metainfo file says and whatever the hash check lets
   pass: lock, queue, pending bits, completed bits, announcements and wake-ups are in order.
   */
  lemma {:induction false} RunControl(m: Meta, found: map<nat, bytes>, ss: seq<State>, i: nat)
    requires Run(m, found, ss) && i < |ss|
    ensures Control(m, found, ss[i])
  {
    hide Control, Init, Next;
    if i == 0 {
      ControlInit(m, found, ss[0]);
    } else {
      RunControl(m, found, ss, i - 1);
      assert Next(m, ss[i - 1], ss[i]);
      NextControl(m, found, ss[i - 1], ss[i]);
    }
  }

  /** Completed bits are never cleared, announcements never withdrawn, the order of accepted requests never changed. */
  lemma {:induction false} Monotone(m: Meta, found: map<nat, bytes>, ss: seq<State>, i: nat, j: nat)
    requires Run(m, found, ss) && i <= j < |ss|
    ensures ss[i].completed <= ss[j].completed
    ensures ss[i].accepted <= ss[j].accepted && ss[i].announced <= ss[j].announced
    ensures ss[i].popped <= ss[j].popped
    decreases j - i
  {
    hide Init, Next;
    if i == j {
    } else {
      Monotone(m, found, ss, i, j - 1);
      assert Next(m, ss[j - 1], ss[j - 1 + 1]);
      NextMonotone(m, ss[j - 1], ss[j]);
    }
  }

  lemma {:induction false} NextWithin(m: Meta, s: State, t: State)
    requires Next(m, s, t) && CursorInv(m, s) && Within(m.files, s.contents)
    ensures Within(m.files, t.contents)
  {
    var step :| Enabled(m, s, step) && t == Apply(m, s, step);
    hide FileStep, StartWrite, PieceBegin, Eligible, Within;
    if step.WorkerFile? && s.worker.k < |m.files| {
      FileStepWithin(m.files, s.worker.cur, s.worker.k, s.queue[0].data);
    }
  }

  /** No file ever grows beyond its length, whatever the metainfo file says and whatever the check lets pass. */
  lemma {:induction false} RunWithin(m: Meta, found: map<nat, bytes>, ss: seq<State>, i: nat)
    requires Run(m, found, ss) && i < |ss| && Within(m.files, ss[0].contents)
    ensures Within(m.files, ss[i].contents)
  {
    hide Init, Next, Within, Control;
    if i > 0 {
      RunWithin(m, found, ss, i - 1);
      RunControl(m, found, ss, i - 1);
      ControlParts(m, found, ss[i - 1]);
      assert Next(m, ss[i - 1], ss[i - 1 + 1]);
      NextWithin(m, ss[i - 1], ss[i]);
    }
  }

  /** The invariant on the files holds in every state up to which the data accepted had the right lengths. */
  lemma {:induction false} RunInv(m: Meta, found: map<nat, bytes>, ss: seq<State>, i: nat)
    requires WellFormed(m) && Run(m, found, ss) && i < |ss| && RightLengths(m, found, ss[i].accepted)
    ensures Inv(m, found, ss[i])
  {
    hide WellFormed, RightLengths, Inv, Init, Next;
    if i == 0 {
      InvInit(m, found, ss[0]);
    } else {
      Monotone(m, found, ss, i - 1, i);
      LengthsPrefix(m, found, ss[i - 1].accepted, ss[i].accepted);
      RunInv(m, found, ss, i - 1);
      assert Next(m, ss[i - 1], ss[i - 1 + 1]);
      NextInv(m, found, ss[i - 1], ss[i]);
    }
  }

  lemma {:induction false} AcceptedIsValid(m: Meta, found: map<nat, bytes>, s: State)
    requires Control(m, found, s)
    ensures forall k :: 0 <= k < |s.accepted| ==> ValidRequest(m, s.accepted[k])
  {
    hide LockInv, PendingInv, WakeInv, ProgressInv, CursorInv, ValidRequest;
  }

  lemma {:induction false} FoundIsValid(m: Meta, found: map<nat, bytes>, ss: seq<State>)
    requires Run(m, found, ss)
    ensures forall c :: c in found ==> c < m.numPieces && m.hashOK(c, found[c])
  {
    hide Next, Holds, PieceBegin;
  }

  /** A check that fixes the length makes every run one of right lengths. */
  lemma {:induction false} CheckFixesLengths(m: Meta, found: map<nat, bytes>, ss: seq<State>, i: nat)
    requires m.pieceLength > 0 && HashFixesLength(m) && Run(m, found, ss) && i < |ss|
    ensures RightLengths(m, found, ss[i].accepted)
  {
    RunControl(m, found, ss, i);
    AcceptedIsValid(m, found, ss[i]);
    FoundIsValid(m, found, ss);
    hide Run, Control, PieceLength;
  }

  /** A check that identifies the data makes every run one of true data. */
  lemma {:induction false} CheckFixesData(m: Meta, truth: bytes, found: map<nat, bytes>, ss: seq<State>, i: nat)
    requires WellFormed(m) && HashFixesData(m, truth) && Run(m, found, ss) && i < |ss|
    ensures TrueData(m, truth, found, ss[i].accepted)
  {
    RunControl(m, found, ss, i);
    AcceptedIsValid(m, found, ss[i]);
    FoundIsValid(m, found, ss);
    hide Run, Control, PieceOf, WellFormed;
  }

  /** Piece `c` is being written over right now. */
  predicate Rewriting(s: State, c: nat) {
    s.worker.WFile? && s.queue != [] && s.queue[0].index == c
  }

  /** What the range of piece `c` holds: the data last written to it, or, while it is written again, the new data up to `off`. */
  ghost function OnDisk(found: map<nat, bytes>, s: State, c: nat): bytes
    requires Wrote(s) <= |s.accepted| && c in Latest(found, s.accepted[..Wrote(s)])
  {
    var before := Latest(found, s.accepted[..Wrote(s)])[c];
    if Rewriting(s, c) && s.worker.cur.off <= |s.queue[0].data| == |before| then
      Mixed(s.queue[0].data, before, s.worker.cur.off)
    else before
  }

  /**
   Disk integrity: in every state of every run, as long as the data accepted has the right lengths,
   a completed piece was last written with data that passes the hash check, and reading back its
   range gives exactly that data. The one
   exception is a piece that the worker is at that moment writing again: then its range holds
   the new data, which passes the check too, up to the point reached, and the old data behind.
   */
  lemma {:induction false} DiskIntegrity(m: Meta, found: map<nat, bytes>, ss: seq<State>, i: nat, c: nat)
    requires WellFormed(m) && Run(m, found, ss) && i < |ss| && RightLengths(m, found, ss[i].accepted)
    requires c in ss[i].completed
    ensures |ss[i].contents| == |m.files| && Wrote(ss[i]) <= |ss[i].accepted|
    ensures c < m.numPieces
    ensures var s := ss[i];
            var before := Latest(found, s.accepted[..Wrote(s)]);
            && c in before && m.hashOK(c, before[c])
            && Holds(m.files, s.contents, PieceBegin(m, c), OnDisk(found, s, c))
            && if !Rewriting(s, c) then OnDisk(found, s, c) == before[c]
               else
                 && m.hashOK(c, s.queue[0].data) && s.worker.cur.off <= |s.queue[0].data| == |before[c]|
                 && OnDisk(found, s, c) == Mixed(s.queue[0].data, before[c], s.worker.cur.off)
  {
    var s := ss[i];
    RunInv(m, found, ss, i);
    hide *;
    InvParts(m, found, s);
    ControlParts(m, found, s);
    MarkedIsWrote(found, s);
    DiskHolds(m, found, s, c);
  }

  lemma {:induction false} DiskHolds(m: Meta, found: map<nat, bytes>, s: State, c: nat)
    requires QueueInv(m, s) && DiskInv(m, found, s) && MixInv(m, found, s)
    requires c in Latest(found, s.accepted[..Wrote(s)])
    ensures |s.contents| == |m.files| && Wrote(s) <= |s.accepted| && c < m.numPieces
    ensures var before := Latest(found, s.accepted[..Wrote(s)]);
            && m.hashOK(c, before[c])
            && Holds(m.files, s.contents, PieceBegin(m, c), OnDisk(found, s, c))
            && if !Rewriting(s, c) then OnDisk(found, s, c) == before[c]
               else
                 && m.hashOK(c, s.queue[0].data) && s.worker.cur.off <= |s.queue[0].data| == |before[c]|
                 && OnDisk(found, s, c) == Mixed(s.queue[0].data, before[c], s.worker.cur.off)
  {
    hide Holds, Latest, PieceBegin, Mixed, Wrote;
    if Rewriting(s, c) {
      FrontIsValid(m, s);
    }
  }

  lemma {:induction false} FrontIsValid(m: Meta, s: State)
    requires QueueInv(m, s) && s.queue != []
    ensures ValidRequest(m, s.queue[0])
  {
    assert s.accepted[s.popped] == s.queue[0];
    hide ValidRequest;
  }

  /**
   As long as no wrong data has passed the check there is no exception: in every state of every
   run every completed piece holds exactly its bytes of the torrent, rewritten or not.
   */
  lemma {:induction false} CompletedIsTrue(m: Meta, truth: bytes, found: map<nat, bytes>, ss: seq<State>, i: nat, c: nat)
    requires Run(m, found, ss) && i < |ss| && TrueData(m, truth, found, ss[i].accepted)
    requires c in ss[i].completed
    ensures WellFormed(m) && |truth| == m.Total()
    ensures |ss[i].contents| == |m.files| && c < m.numPieces
    ensures Holds(m.files, ss[i].contents, PieceBegin(m, c), PieceOf(m, truth, c))
  {
    hide *;
    var s := ss[i];
    TrueLengths(m, truth, found, s.accepted);
    LatestIsTrue(m, truth, found, s.accepted);
    DiskIntegrity(m, found, ss, i, c);
    TruePrefix(m, truth, found, s.accepted[..Wrote(s)], s.accepted);
    LatestIsTrue(m, truth, found, s.accepted[..Wrote(s)]);
    var before := Latest(found, s.accepted[..Wrote(s)]);
    if Rewriting(s, c) {
      RunControl(m, found, ss, i);
      FrontIsTrue(m, truth, found, s, c);
      MixedEnds(s.queue[0].data, before[c], s.worker.cur.off);
    }
  }

  lemma {:induction false} FrontIsTrue(m: Meta, truth: bytes, found: map<nat, bytes>, s: State, c: nat)
    requires Control(m, found, s) && TrueData(m, truth, found, s.accepted) && Rewriting(s, c)
    ensures s.worker.WFile? && s.queue != [] && WellFormed(m) && |truth| == m.Total() && c < m.numPieces
    ensures s.queue[0].data == PieceOf(m, truth, c)
  {
    hide LockInv, PendingInv, WakeInv, ProgressInv, CursorInv, ValidRequest, WellFormed, PieceOf;
    assert s.accepted[s.popped] == s.queue[0];
  }

  // A piece with its completed bit has been written.
  lemma {:induction false} MarkedIsWrote(found: map<nat, bytes>, s: State)
    requires ProgressInv(found, s)
    ensures s.completed <= Latest(found, s.accepted[..Wrote(s)]).Keys
  {
    IndicesPrefix(s.accepted, Marked(s), Wrote(s));
    hide Latest, Indices;
  }

  lemma {:induction false} IndicesPrefix(q: seq<WriteRequest>, i: nat, j: nat)
    requires i <= j <= |q|
    ensures Indices(q[..i]) <= Indices(q[..j])
  {
    forall x | x in Indices(q[..i])
      ensures x in Indices(q[..j])
    {
      var k :| 0 <= k < i && q[..i][k].index == x;
      assert q[..j][k].index == x;
    }
  }

  /**
   What `Have` promises: once a piece has been announced, then in every later state of the run
   its bit is set and its range holds data as `DiskIntegrity` says; outside a rewrite of the
   same piece these bytes pass the hash check.
   */
  lemma {:induction false} AnnouncedStaysOnDisk(m: Meta, found: map<nat, bytes>, ss: seq<State>, i: nat, j: nat, c: nat)
    requires WellFormed(m) && Run(m, found, ss) && i <= j < |ss| && RightLengths(m, found, ss[j].accepted)
    requires c in ss[i].announced
    ensures c in ss[j].completed
    ensures |ss[j].contents| == |m.files| && Wrote(ss[j]) <= |ss[j].accepted|
    ensures c in Latest(found, ss[j].accepted[..Wrote(ss[j])])
    ensures Holds(m.files, ss[j].contents, PieceBegin(m, c), OnDisk(found, ss[j], c))
    ensures !Rewriting(ss[j], c) ==> m.hashOK(c, OnDisk(found, ss[j], c))
  {
    hide *;
    AnnouncedStaysCompleted(m, found, ss, i, j, c);
    DiskIntegrity(m, found, ss, j, c);
  }

  /** As long as no wrong data has passed the check, an announced piece is on disk in every later state, rewritten or not. */
  lemma {:induction false} AnnouncedStaysTrue(m: Meta, truth: bytes, found: map<nat, bytes>, ss: seq<State>, i: nat, j: nat, c: nat)
    requires Run(m, found, ss) && i <= j < |ss| && TrueData(m, truth, found, ss[j].accepted)
    requires c in ss[i].announced
    ensures WellFormed(m) && |truth| == m.Total()
    ensures c in ss[j].completed && c < m.numPieces && |ss[j].contents| == |m.files|
    ensures Holds(m.files, ss[j].contents, PieceBegin(m, c), PieceOf(m, truth, c))
  {
    hide *;
    AnnouncedStaysCompleted(m, found, ss, i, j, c);
    CompletedIsTrue(m, truth, found, ss, j, c);
  }

  /** The bit of an announced piece stays set, whatever the check lets pass. */
  lemma {:induction false} AnnouncedStaysCompleted(m: Meta, found: map<nat, bytes>, ss: seq<State>, i: nat, j: nat, c: nat)
    requires Run(m, found, ss) && i <= j < |ss|
    requires c in ss[i].announced
    ensures c in ss[j].completed
  {
    hide *;
    RunControl(m, found, ss, i);
    ControlParts(m, found, ss[i]);
    Monotone(m, found, ss, i, j);
    AnnouncedIsCompleted(found, ss[i]);
  }

  lemma {:induction false} AnnouncedIsCompleted(found: map<nat, bytes>, s: State)
    requires ProgressInv(found, s)
    ensures forall c :: c in s.announced ==> c in s.completed
  {
    IndicesPrefix(s.accepted, Told(s), Marked(s));
    forall c | c in s.announced
      ensures c in s.completed
    {
      var k :| 0 <= k < |s.announced| && s.announced[k] == c;
      assert s.accepted[..Told(s)][k].index == c;
      assert c in Indices(s.accepted[..Told(s)]);
    }
  }

  /**
   In every state in which nobody holds the lock: the pending bits are exactly the indices in
   the write queue, these are pairwise distinct, the queue is the tail of the accepted requests
   (so accepted = processed + queued, in order), and exactly the processed pieces were completed
   and announced.
   */
  lemma {:induction false} LockFreeState(m: Meta, found: map<nat, bytes>, ss: seq<State>, i: nat)
    requires Run(m, found, ss) && i < |ss|
    requires ss[i].owner.Free?
    ensures var s := ss[i];
            && s.pending == Indices(s.queue) && Distinct(s.queue) && |s.pending| == |s.queue|
            && s.popped <= |s.accepted| && s.accepted == s.accepted[..s.popped] + s.queue
            && s.completed == found.Keys + Indices(s.accepted[..s.popped])
            && s.announced == IndexList(s.accepted[..s.popped])
  {
    RunControl(m, found, ss, i);
    hide Run, Indices, IndexList, Distinct, CursorInv, ValidRequest;
    DistinctCount(ss[i].queue);
  }

  lemma {:induction false} DistinctCount(q: seq<WriteRequest>)
    requires Distinct(q)
    ensures |Indices(q)| == |q|
  {
    if q == [] {
      assert Indices(q) == {};
    } else {
      IndicesPop(q);
      IndicesFront(q);
      DistinctCount(q[1..]);
    }
  }

  /**
   No lost wake-up: whenever the worker is blocked in the condition wait while a request is
   queued, the I/O thread is between pushing it and notifying; so the two are never both idle
   with work in the queue.
   */
  lemma {:induction false} NoLostWakeup(m: Meta, found: map<nat, bytes>, ss: seq<State>, i: nat)
    requires Run(m, found, ss) && i < |ss|
    requires ss[i].worker.WWaiting? && (ss[i].queue != [] || ss[i].readQueue > 0)
    ensures ss[i].io.IoMarking? || ss[i].io.IoUnlocking? || ss[i].io.IoNotifying?
    ensures ss[i].owner.Free? ==> ss[i].io.IoNotifying?
  {
    RunControl(m, found, ss, i);
    hide Run, CursorInv, PendingInv, QueueInv, ProgressInv;
  }

  predicate IsIoStep(step: Step) {
    step.IoLock? || step.IoPush? || step.IoMark? || step.IoUnlock? || step.IoNotify?
  }

  predicate IsWorkerStep(step: Step) {
    !IsIoStep(step) && !step.Submit? && !step.SubmitRead? && !step.SpuriousWake?
  }

  /**
   No deadlock: in every state with a queued request the worker can take a step, unless the I/O
   thread holds the lock or is about to notify; then that thread can take its next step.
   */
  lemma {:induction false} QueuedWorkIsServed(m: Meta, found: map<nat, bytes>, ss: seq<State>, i: nat)
    requires Run(m, found, ss) && i < |ss|
    requires ss[i].queue != []
    ensures || (exists step :: Enabled(m, ss[i], step) && IsWorkerStep(step))
            || ((ss[i].owner.Io? || ss[i].io.IoNotifying?) && exists step :: Enabled(m, ss[i], step) && IsIoStep(step))
  {
    hide *;
    RunControl(m, found, ss, i);
    ControlParts(m, found, ss[i]);
    SomeoneCanMove(m, ss[i]);
  }

  lemma {:induction false} SomeoneCanMove(m: Meta, s: State)
    requires LockInv(s) && WakeInv(s) && QueueInv(m, s) && CursorInv(m, s)
    requires s.queue != []
    ensures || (exists step :: Enabled(m, s, step) && IsWorkerStep(step))
            || ((s.owner.Io? || s.io.IoNotifying?) && exists step :: Enabled(m, s, step) && IsIoStep(step))
  {
    hide ValidRequest;
    var step :=
      if s.owner.Io? then
        if s.io.IoPushing? || s.io.IoReadPushing? then IoPush else if s.io.IoMarking? then IoMark else IoUnlock
      else
        WorkerMove(s.worker);
    assert Enabled(m, s, step) && (IsIoStep(step) || IsWorkerStep(step));
  }

  // What moves next when the lock is free or the worker's; only a notification moves a waiting worker.
  function WorkerMove(w: WorkerPc): Step {
    match w
    case WTop => WorkerLock
    case WTest => WorkerTest
    case WWaiting => IoNotify
    case WWoken => WorkerRelock
    case WWrites => WorkerFront
    case WFile(_, _) => WorkerFile
    case WClear => WorkerClear
    case WComplete => WorkerComplete
    case WAnnounce => WorkerAnnounce
    case WPop => WorkerPop
    case WReads => WorkerRead(true)
    case WUnlock => WorkerUnlock
  }

  lemma {:induction false} LatestIs(found: map<nat, bytes>, acc: seq<WriteRequest>, j: nat)
    requires j < |acc|
    requires forall l :: j < l < |acc| ==> acc[l].index != acc[j].index
    ensures acc[j].index in Latest(found, acc)
    ensures Latest(found, acc)[acc[j].index] == acc[j].data
  {
    hide Latest;
    var n := |acc| - 1;
    assert acc == acc[..n] + [acc[n]];
    LatestPush(found, acc[..n], acc[n]);
    if j < n {
      assert acc[..n][j] == acc[j];
      LatestIs(found, acc[..n], j);
    }
  }

  // A processed request has its completed bit and its announcement.
  lemma {:induction false} ProcessedIsTold(found: map<nat, bytes>, s: State, j: nat)
    requires ProgressInv(found, s) && j < s.popped <= |s.accepted|
    ensures s.accepted[j].index in s.completed && s.accepted[j].index in s.announced
  {
    hide Indices;
    var acc := s.accepted[..Marked(s)];
    assert acc[j] == s.accepted[j];
    IndexIn(acc, j);
    assert s.announced[j] == s.accepted[j].index;
  }

  lemma {:induction false} IndexIn(q: seq<WriteRequest>, k: nat)
    requires k < |q|
    ensures q[k].index in Indices(q)
  {
  }

  /** Once request `j` has been processed, its piece is completed and announced, whatever the check lets pass. */
  lemma {:induction false} ProcessedIsAnnounced(m: Meta, found: map<nat, bytes>, ss: seq<State>, i: nat, j: nat)
    requires Run(m, found, ss) && i < |ss| && j < ss[i].popped
    ensures ss[i].popped <= |ss[i].accepted|
    ensures ss[i].accepted[j].index in ss[i].completed && ss[i].accepted[j].index in ss[i].announced
  {
    hide *;
    RunControl(m, found, ss, i);
    ControlParts(m, found, ss[i]);
    PoppedWithin(m, ss[i]);
    ProcessedIsTold(found, ss[i], j);
  }

  lemma {:induction false} PoppedWithin(m: Meta, s: State)
    requires QueueInv(m, s)
    ensures s.popped <= |s.accepted|
  {
    hide ValidRequest;
  }

  /**
   An accepted block reaches the disk: once request `j` has been processed, and as long as no
   later request for the same piece is being or has been written, the files hold exactly its data.
   */
  lemma {:induction false} AcceptedReachesDisk(m: Meta, found: map<nat, bytes>, ss: seq<State>, i: nat, j: nat)
    requires WellFormed(m) && Run(m, found, ss) && i < |ss| && RightLengths(m, found, ss[i].accepted)
    requires j < ss[i].popped <= |ss[i].accepted|
    requires forall l :: j < l < Wrote(ss[i]) && l < |ss[i].accepted| ==> ss[i].accepted[l].index != ss[i].accepted[j].index
    requires !Rewriting(ss[i], ss[i].accepted[j].index)
    ensures |ss[i].contents| == |m.files|
    ensures var w := ss[i].accepted[j];
            && w.index in ss[i].completed && w.index in ss[i].announced
            && Holds(m.files, ss[i].contents, PieceBegin(m, w.index), w.data)
  {
    var s := ss[i];
    PoppedIsWritten(s);
    hide *;
    ProcessedIsAnnounced(m, found, ss, i, j);
    DiskIntegrity(m, found, ss, i, s.accepted[j].index);
    var acc := s.accepted[..Wrote(s)];
    assert acc[j] == s.accepted[j];
    LatestIs(found, acc, j);
  }

  lemma {:induction false} PoppedIsWritten(s: State)
    ensures s.popped <= Wrote(s)
  {
  }
}
