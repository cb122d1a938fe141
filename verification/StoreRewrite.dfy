/**
 Writing a piece that is already on disk. `is_write_eligible` does not look at the completed bits,
 so a piece that two peers deliver one after the other is written twice. This file says when that
 happens, and for exactly which torrents the range of an announced piece may in between fail the
 hash check.
 */
module StoreRewrite {
  import opened Bytes
  import opened Layout
  import opened Pieces
  import opened StoreProtocol
  import opened StoreProgress

  // ---------- When a completed piece is written again ----------

  /**
   In every state of every run, whatever the check lets pass: the piece being written is already
   completed iff it was on disk at the start or an earlier request for it was processed.
   */
  lemma {:induction false} RewritesAreRepeats(m: Meta, found: map<nat, bytes>, ss: seq<State>, i: nat, c: nat)
    requires Run(m, found, ss) && i < |ss| && Rewriting(ss[i], c)
    ensures ss[i].popped < |ss[i].accepted| && ss[i].accepted[ss[i].popped].index == c
    ensures c in ss[i].completed <==> c in found || exists k :: 0 <= k < ss[i].popped && ss[i].accepted[k].index == c
  {
    var s := ss[i];
    RunControl(m, found, ss, i);
    hide *;
    ControlParts(m, found, s);
    CompletedBefore(m, found, s, c);
  }

  lemma {:induction false} CompletedBefore(m: Meta, found: map<nat, bytes>, s: State, c: nat)
    requires QueueInv(m, s) && ProgressInv(found, s) && Rewriting(s, c)
    ensures s.popped < |s.accepted| && s.accepted[s.popped].index == c
    ensures c in s.completed <==> c in found || exists k :: 0 <= k < s.popped && s.accepted[k].index == c
  {
    hide ValidRequest, IndexList;
    assert s.accepted[s.popped] == s.queue[0];
    var done := s.accepted[..s.popped];
    assert forall k :: 0 <= k < s.popped ==> done[k] == s.accepted[k];
    if c in Indices(done) {
      var k :| 0 <= k < |done| && done[k].index == c;
      assert s.accepted[k].index == c;
    }
    if k :| 0 <= k < s.popped && s.accepted[k].index == c {
      assert done[k].index == c;
    }
  }

  /** No request was accepted for a piece that was there at the start or had been accepted before. */
  ghost predicate NoRepeats(found: map<nat, bytes>, accepted: seq<WriteRequest>) {
    Distinct(accepted) && forall k :: 0 <= k < |accepted| ==> accepted[k].index !in found
  }

  /** Without repeated requests every completed piece passes the hash check in every state. */
  lemma {:induction false} NoRepeatsNoException(m: Meta, found: map<nat, bytes>, ss: seq<State>, i: nat, c: nat)
    requires WellFormed(m) && Run(m, found, ss) && i < |ss| && RightLengths(m, found, ss[i].accepted)
    requires NoRepeats(found, ss[i].accepted) && c in ss[i].completed
    ensures |ss[i].contents| == |m.files| && Wrote(ss[i]) <= |ss[i].accepted|
    ensures c in Latest(found, ss[i].accepted[..Wrote(ss[i])])
    ensures var d := OnDisk(found, ss[i], c);
            m.hashOK(c, d) && Holds(m.files, ss[i].contents, PieceBegin(m, c), d)
  {
    DiskIntegrity(m, found, ss, i, c);
    hide WellFormed, RightLengths, Run, OnDisk, Latest, Holds, PieceBegin, Wrote, Mixed, Rewriting;
    if Rewriting(ss[i], c) {
      RewritesAreRepeats(m, found, ss, i, c);
      assert false;
    }
  }

  // ---------- How far a rewrite has come ----------

  /** Before round `k`, exactly the bytes of the block that lie in the first `k` files have been written. */
  predicate ReachedInv(m: Meta, s: State) {
    s.worker.WFile? && s.queue != [] && s.worker.k <= |m.files| ==>
      s.worker.cur.off == Reached(m.files, PieceBegin(m, s.queue[0].index), |s.queue[0].data|, s.worker.k)
  }

  lemma {:induction false} ReachedFront(m: Meta, s: State)
    requires Enabled(m, s, WorkerFront)
    ensures ReachedInv(m, Apply(m, s, WorkerFront))
  {
    hide PieceBegin;
    assert m.files[..0] == [];
  }

  lemma {:induction false} ReachedFile(m: Meta, s: State)
    requires Contiguous(m.files) && Enabled(m, s, WorkerFile) && WriteInv(m, s) && ReachedInv(m, s)
    ensures ReachedInv(m, Apply(m, s, WorkerFile))
  {
    hide PieceBegin, Holds, Contiguous, Writing, FileStep, Reached;
    if s.worker.k < |m.files| {
      var w := s.queue[0];
      FileStepReaches(m.files, s.worker.cur, s.worker.k, PieceBegin(m, w.index), w.data);
    }
  }

  lemma {:induction false} ReachedRest(m: Meta, s: State, step: Step)
    requires !step.WorkerFront? && !step.WorkerFile?
    requires Enabled(m, s, step) && LockInv(s) && QueueInv(m, s) && ReachedInv(m, s)
    ensures ReachedInv(m, Apply(m, s, step))
  {
    hide PieceBegin, Reached, FileStep, StartWrite, Eligible, ValidRequest;
  }

  lemma {:induction false} ReachedNext(m: Meta, found: map<nat, bytes>, s: State, t: State)
    requires WellFormed(m) && Next(m, s, t) && Inv(m, found, s) && ReachedInv(m, s)
    ensures ReachedInv(m, t)
  {
    var step :| Enabled(m, s, step) && t == Apply(m, s, step);
    hide *;
    InvParts(m, found, s);
    ControlParts(m, found, s);
    WellFormedLayout(m);
    match step
    case WorkerFront => ReachedFront(m, s);
    case WorkerFile => ReachedFile(m, s);
    case _ => ReachedRest(m, s, step);
  }

  lemma {:induction false} RunReached(m: Meta, found: map<nat, bytes>, ss: seq<State>, i: nat)
    requires WellFormed(m) && Run(m, found, ss) && i < |ss| && RightLengths(m, found, ss[i].accepted)
    ensures ReachedInv(m, ss[i])
  {
    hide *;
    if i == 0 {
      StartsAtTop(m, found, ss);
    } else {
      Monotone(m, found, ss, i - 1, i);
      LengthsPrefix(m, found, ss[i - 1].accepted, ss[i].accepted);
      RunReached(m, found, ss, i - 1);
      RunInv(m, found, ss, i - 1);
      RunNext(m, found, ss, i - 1);
      ReachedNext(m, found, ss[i - 1], ss[i]);
    }
  }

  lemma {:induction false} StartsAtTop(m: Meta, found: map<nat, bytes>, ss: seq<State>)
    requires Run(m, found, ss)
    ensures |ss| > 0 && ReachedInv(m, ss[0])
  {
    hide Next, Holds, PieceBegin;
  }

  // ---------- When the exception is harmless ----------

  /** Data that the check lets pass for piece `c` and that has its length. */
  predicate Passes(m: Meta, c: nat, d: bytes) {
    m.pieceLength > 0 && m.hashOK(c, d) && |d| == PieceLength(m, c)
  }

  /** The bytes of piece `c` when, of the first `k` files the part in `data`, and behind them the part in `before` is on disk. */
  function MixedAt(m: Meta, c: nat, k: nat, data: bytes, before: bytes): (r: bytes)
    requires k <= |m.files| && |data| == |before|
    ensures |r| == |before|
  {
    Mixed(data, before, Reached(m.files, PieceBegin(m, c), |data|, k))
  }

  /** Two data that pass for a piece, joined at a boundary between two files, pass too. */
  ghost predicate MixesPass(m: Meta) {
    forall c: nat, k: nat, d: bytes, e: bytes ::
      c < m.numPieces && k <= |m.files| && Passes(m, c, d) && Passes(m, c, e) ==> m.hashOK(c, MixedAt(m, c, k, d, e))
  }

  /** What the range of piece `c` holds passes the check. */
  ghost predicate PassesOnDisk(m: Meta, cs: seq<bytes>, c: nat) {
    |cs| == |m.files| && exists d :: Passes(m, c, d) && Holds(m.files, cs, PieceBegin(m, c), d)
  }

  /** State `i` of a run in which all data had the right lengths, with piece `c` completed. */
  ghost predicate CompletedIn(m: Meta, found: map<nat, bytes>, ss: seq<State>, i: nat, c: nat) {
    Run(m, found, ss) && i < |ss| && RightLengths(m, found, ss[i].accepted) && c in ss[i].completed
  }

  /** In every state of every such run every completed piece passes the check. */
  ghost predicate AlwaysPasses(m: Meta) {
    forall found: map<nat, bytes>, ss: seq<State>, i: nat, c: nat ::
      CompletedIn(m, found, ss, i, c) ==> PassesOnDisk(m, ss[i].contents, c)
  }

  lemma {:induction false} OneOfThem(m: Meta, cs: seq<bytes>, c: nat, d: bytes)
    requires |cs| == |m.files| && Passes(m, c, d) && Holds(m.files, cs, PieceBegin(m, c), d)
    ensures PassesOnDisk(m, cs, c)
  {
  }

  // The mix inside a rewrite is one at a boundary between two files.
  lemma {:induction false} RewritingMix(m: Meta, found: map<nat, bytes>, s: State, c: nat, before: bytes)
    requires Control(m, found, s) && RightLengths(m, found, s.accepted) && ReachedInv(m, s)
    requires Rewriting(s, c) && Passes(m, c, before) && |s.queue[0].data| == |before| && s.worker.cur.off <= |before|
    ensures s.worker.WFile? && s.queue != [] && s.worker.k <= |m.files| && c < m.numPieces && Passes(m, c, s.queue[0].data)
    ensures Mixed(s.queue[0].data, before, s.worker.cur.off) == MixedAt(m, c, s.worker.k, s.queue[0].data, before)
  {
    hide LockInv, PendingInv, WakeInv, ProgressInv, PieceLength, PieceBegin, Mixed, Reached;
    assert s.accepted[s.popped] == s.queue[0];
  }

  lemma {:induction false} MixPasses(m: Meta, c: nat, k: nat, d: bytes, e: bytes)
    requires MixesPass(m) && c < m.numPieces && k <= |m.files| && Passes(m, c, d) && Passes(m, c, e)
    ensures |MixedAt(m, c, k, d, e)| == |e| && Passes(m, c, MixedAt(m, c, k, d, e))
  {
    hide PieceLength, PieceBegin, Mixed, Reached;
    assert m.hashOK(c, MixedAt(m, c, k, d, e));
  }

  lemma {:induction false} PassesIs(m: Meta, c: nat, d: bytes)
    ensures Passes(m, c, d) <==> m.pieceLength > 0 && m.hashOK(c, d) && |d| == PieceLength(m, c)
  {
    hide PieceLength;
  }

  /** If joined data passes, then in every state of every run every completed piece passes the check. */
  lemma {:induction false} MixesPassNoException(m: Meta, found: map<nat, bytes>, ss: seq<State>, i: nat, c: nat)
    requires WellFormed(m) && MixesPass(m) && Run(m, found, ss) && i < |ss| && RightLengths(m, found, ss[i].accepted)
    requires c in ss[i].completed
    ensures PassesOnDisk(m, ss[i].contents, c)
  {
    hide *;
    var s := ss[i];
    DiskIntegrity(m, found, ss, i, c);
    var acc := s.accepted[..Wrote(s)];
    LengthsPrefix(m, found, acc, s.accepted);
    LatestLengths(m, found, acc);
    var before := Latest(found, acc)[c];
    PassesIs(m, c, before);
    if Rewriting(s, c) {
      RunReached(m, found, ss, i);
      RunControl(m, found, ss, i);
      RewritingMix(m, found, s, c, before);
      MixPasses(m, c, s.worker.k, s.queue[0].data, before);
    }
    OneOfThem(m, s.contents, c, OnDisk(found, s, c));
  }

  // ---------- Runs in which the exception is real ----------

  lemma {:induction false} Extend(m: Meta, found: map<nat, bytes>, ss: seq<State>, step: Step, t: State) returns (tt: seq<State>)
    requires ss != [] && Run(m, found, ss) && Enabled(m, Last(ss), step) && t == Apply(m, Last(ss), step)
    ensures tt != [] && Run(m, found, tt) && Last(tt) == t
  {
    hide *;
    RunAppend(m, found, ss, step);
    LastPushed(ss, t);
    tt := ss + [t];
  }

  /** The state after a request went through the idle store up to its first file. */
  function Begun(m: Meta, s: State, w: WriteRequest): State {
    s.(queue := [w], accepted := s.accepted + [w], pending := s.pending + {w.index}, owner := Worker,
       worker := WFile(0, StartWrite(s.contents, PieceBegin(m, w.index), w.data)))
  }

  predicate AtRest(s: State) {
    s.io.IoIdle? && s.worker.WTop? && s.owner.Free? && s.queue == [] && s.readQueue == 0
  }

  lemma {:induction false} BeginWrite(m: Meta, found: map<nat, bytes>, ss: seq<State>, w: WriteRequest) returns (tt: seq<State>)
    requires ss != [] && Run(m, found, ss) && AtRest(Last(ss)) && Eligible(m, Last(ss).pending, w)
    ensures tt != [] && Run(m, found, tt) && Last(tt) == Begun(m, Last(ss), w)
  {
    hide Run, Last, Eligible, PieceBegin;
    var s := Last(ss);
    tt := Extend(m, found, ss, Submit(w), s.(io := IoChecked(w)));
    tt := Extend(m, found, tt, IoLock, s.(io := IoPushing(w), owner := Io));
    var t := s.(queue := [w], accepted := s.accepted + [w]);
    assert [] + [w] == [w];
    tt := Extend(m, found, tt, IoPush, t.(io := IoMarking(w), owner := Io));
    t := t.(pending := s.pending + {w.index});
    tt := Extend(m, found, tt, IoMark, t.(io := IoUnlocking, owner := Io));
    tt := Extend(m, found, tt, IoUnlock, t.(io := IoNotifying));
    tt := Extend(m, found, tt, IoNotify, t);
    tt := Extend(m, found, tt, WorkerLock, t.(owner := Worker, worker := WTest));
    tt := Extend(m, found, tt, WorkerTest, t.(owner := Worker, worker := WWrites));
    tt := Extend(m, found, tt, WorkerFront, Begun(m, s, w));
  }

  /** The state after the only request was finished and the worker gave up the lock. */
  function Ended(s: State): State
    requires |s.queue| == 1
  {
    var c := s.queue[0].index;
    s.(queue := [], popped := s.popped + 1, pending := s.pending - {c}, completed := s.completed + {c},
       announced := s.announced + [c], owner := Free, worker := WTop)
  }

  lemma {:induction false} EndWrite(m: Meta, found: map<nat, bytes>, ss: seq<State>) returns (tt: seq<State>)
    requires ss != [] && Run(m, found, ss) && Enabled(m, Last(ss), WorkerFile)
    requires var s := Last(ss); s.worker.k == |m.files| && |s.queue| == 1 && s.owner.Worker? && s.readQueue == 0
    ensures tt != [] && Run(m, found, tt) && Last(tt) == Ended(Last(ss))
  {
    hide Run, Last, PieceBegin, FileStep;
    var s := Last(ss);
    var c := s.queue[0].index;
    var t := s;
    tt := Extend(m, found, ss, WorkerFile, t.(worker := WClear));
    t := t.(pending := s.pending - {c});
    tt := Extend(m, found, tt, WorkerClear, t.(worker := WComplete));
    t := t.(completed := s.completed + {c});
    tt := Extend(m, found, tt, WorkerComplete, t.(worker := WAnnounce));
    t := t.(announced := s.announced + [c]);
    tt := Extend(m, found, tt, WorkerAnnounce, t.(worker := WPop));
    assert s.queue[1..] == [];
    t := t.(queue := [], popped := s.popped + 1);
    tt := Extend(m, found, tt, WorkerPop, t.(worker := WWrites));
    tt := Extend(m, found, tt, WorkerFront, t.(worker := WReads));
    tt := Extend(m, found, tt, WorkerRead(false), t.(worker := WUnlock));
    tt := Extend(m, found, tt, WorkerUnlock, Ended(s));
  }

  function FreshStore(m: Meta): State {
    State(seq(|m.files|, _ => []), {}, {}, [], 0, Free, IoIdle, WTop, [], 0, [])
  }

  lemma {:induction false} FreshRun(m: Meta)
    ensures Run(m, map[], [FreshStore(m)])
  {
  }

  // The worker goes on with its write for `n` files.
  lemma {:induction false} FileRounds(m: Meta, found: map<nat, bytes>, ss: seq<State>, n: nat) returns (tt: seq<State>)
    requires ss != [] && Run(m, found, ss) && Last(ss).worker.WFile? && Last(ss).worker.k + n <= |m.files|
    ensures tt != [] && Run(m, found, tt)
    ensures Last(tt).worker.WFile? && Last(tt).worker.k == Last(ss).worker.k + n
    ensures Last(tt) == Last(ss).(contents := Last(tt).contents, worker := Last(tt).worker)
    decreases n
  {
    hide *;
    if n == 0 {
      tt := ss;
    } else {
      tt := FileRounds(m, found, ss, n - 1);
      var s := Last(tt);
      LastRunControl(m, found, tt);
      FileRound(m, found, s);
      tt := Extend(m, found, tt, WorkerFile, Apply(m, s, WorkerFile));
    }
  }

  lemma {:induction false} FileRound(m: Meta, found: map<nat, bytes>, s: State)
    requires Control(m, found, s) && s.worker.WFile?
    ensures Enabled(m, s, WorkerFile)
    ensures s.worker.k < |m.files| ==>
              var t := Apply(m, s, WorkerFile);
              t.worker.WFile? && t.worker.k == s.worker.k + 1 && t == s.(contents := t.contents, worker := t.worker)
  {
    hide LockInv, QueueInv, PendingInv, WakeInv, ProgressInv, FileStep, StartWrite, PieceBegin;
  }

  /** The state of a fresh store after `first` was written completely and `second`, for the same piece, into `k` files. */
  predicate WrittenTwice(s: State, first: WriteRequest, second: WriteRequest, k: nat) {
    && s.worker.WFile? && s.worker.k == k && s.queue == [second]
    && s.accepted == [first, second] && s.popped == 1 && s.completed == {first.index} && s.announced == [first.index]
  }

  lemma {:induction false} WriteOnce(m: Meta, w: WriteRequest) returns (ss: seq<State>)
    requires Eligible(m, {}, w)
    ensures ss != [] && Run(m, map[], ss) && AtRest(Last(ss))
    ensures var s := Last(ss);
            s.accepted == [w] && s.popped == 1 && s.completed == {w.index} && s.announced == [w.index] && s.pending == {}
  {
    FreshRun(m);
    ss := [FreshStore(m)];
    hide Run, Eligible, Enabled, PieceBegin, StartWrite;
    ss := BeginWrite(m, map[], ss, w);
    ss := FileRounds(m, map[], ss, |m.files|);
    LastRunControl(m, map[], ss);
    FileRound(m, map[], Last(ss));
    hide Control;
    ss := EndWrite(m, map[], ss);
    assert {} + {w.index} - {w.index} == {};
  }

  lemma {:induction false} WriteTwice(m: Meta, first: WriteRequest, second: WriteRequest, k: nat) returns (ss: seq<State>)
    requires Eligible(m, {}, first) && Eligible(m, {}, second) && k <= |m.files|
    ensures ss != [] && Run(m, map[], ss) && WrittenTwice(Last(ss), first, second, k)
  {
    ss := WriteOnce(m, first);
    hide Run, Eligible, PieceBegin, StartWrite;
    ss := BeginWrite(m, map[], ss, second);
    ss := FileRounds(m, map[], ss, k);
  }

  // Both ranges read back from the same files.
  lemma {:induction false} HoldsOne(fs: seq<FileInfo>, cs: seq<bytes>, at: nat, d: bytes, e: bytes)
    requires |fs| == |cs| && |d| == |e| && Holds(fs, cs, at, d) && Holds(fs, cs, at, e)
    ensures d == e
  {
    hide Image, Backed, TotalLength;
  }

  lemma {:induction false} NoneOfThem(m: Meta, cs: seq<bytes>, c: nat, d: bytes)
    requires |cs| == |m.files| && m.pieceLength > 0 && !m.hashOK(c, d) && |d| == PieceLength(m, c)
    requires Holds(m.files, cs, PieceBegin(m, c), d)
    ensures !PassesOnDisk(m, cs, c)
  {
    hide PieceLength, PieceBegin, Holds;
    forall e | Passes(m, c, e) && Holds(m.files, cs, PieceBegin(m, c), e)
      ensures false
    {
      HoldsOne(m.files, cs, PieceBegin(m, c), d, e);
    }
  }

  // In a state reached as above, the range of the piece holds the mix.
  lemma {:induction false} TwiceMixes(m: Meta, ss: seq<State>, c: nat, k: nat, d: bytes, e: bytes)
    requires WellFormed(m) && ss != [] && Run(m, map[], ss) && k <= |m.files| && Passes(m, c, d) && Passes(m, c, e)
    requires WrittenTwice(Last(ss), WriteRequest(c, 0, e), WriteRequest(c, 0, d), k)
    ensures RightLengths(m, map[], Last(ss).accepted) && |Last(ss).contents| == |m.files|
    ensures Holds(m.files, Last(ss).contents, PieceBegin(m, c), MixedAt(m, c, k, d, e))
  {
    hide *;
    var s, first, second := Last(ss), WriteRequest(c, 0, e), WriteRequest(c, 0, d);
    TwiceFacts(m, s, first, second, k);
    LastIs(ss);
    DiskIntegrity(m, map[], ss, |ss| - 1, c);
    RunReached(m, map[], ss, |ss| - 1);
    assert s.accepted[..Wrote(s)] == [first];
    LatestOfOne(first);
    TwiceReached(m, s, first, second, k);
  }

  lemma {:induction false} LastIs(ss: seq<State>)
    requires ss != []
    ensures Last(ss) == ss[|ss| - 1]
  {
  }

  lemma {:induction false} LatestOfOne(w: WriteRequest)
    ensures Latest(map[], [w]) == map[w.index := w.data]
  {
    assert [w][..0] == [];
    assert Latest(map[], []) == map[];
  }

  lemma {:induction false} TwiceFacts(m: Meta, s: State, first: WriteRequest, second: WriteRequest, k: nat)
    requires WrittenTwice(s, first, second, k) && first.index == second.index
    requires Passes(m, first.index, first.data) && Passes(m, second.index, second.data)
    ensures RightLengths(m, map[], s.accepted) && Wrote(s) == 1 && |s.accepted| == 2 && s.accepted[0] == first
    ensures first.index in s.completed && first.index in s.announced && Rewriting(s, first.index)
    ensures s.worker.WFile? && s.queue == [second] && s.worker.k == k
  {
    hide PieceLength;
  }

  lemma {:induction false} TwiceReached(m: Meta, s: State, first: WriteRequest, second: WriteRequest, k: nat)
    requires WrittenTwice(s, first, second, k) && k <= |m.files| && ReachedInv(m, s)
    requires |first.data| == |second.data|
    ensures s.worker.cur.off == Reached(m.files, PieceBegin(m, second.index), |second.data|, k)
    ensures MixedAt(m, second.index, k, second.data, first.data) == Mixed(second.data, first.data, s.worker.cur.off)
  {
    hide Mixed, Reached, PieceBegin;
  }

  /**
   The exception of `DiskIntegrity` is real whenever two data that pass for a piece, joined at a
   boundary between two files, do not: then there is a run of a fresh store, with data of the
   right lengths only, that ends with the piece announced and its range failing the check.
   */
  lemma {:induction false} FailingMixShows(m: Meta, c: nat, k: nat, d: bytes, e: bytes) returns (ss: seq<State>)
    requires WellFormed(m) && c < m.numPieces && k <= |m.files| && Passes(m, c, d) && Passes(m, c, e)
    requires !m.hashOK(c, MixedAt(m, c, k, d, e))
    ensures ss != [] && Run(m, map[], ss) && RightLengths(m, map[], Last(ss).accepted)
    ensures c in Last(ss).completed && c in Last(ss).announced && Rewriting(Last(ss), c)
    ensures !PassesOnDisk(m, Last(ss).contents, c)
  {
    hide *;
    var first, second := WriteRequest(c, 0, e), WriteRequest(c, 0, d);
    PassingIsEligible(m, first);
    PassingIsEligible(m, second);
    ss := WriteTwice(m, first, second, k);
    TwiceFacts(m, Last(ss), first, second, k);
    TwiceMixes(m, ss, c, k, d, e);
    PassesIs(m, c, d);
    PassesIs(m, c, e);
    NoneOfThem(m, Last(ss).contents, c, MixedAt(m, c, k, d, e));
  }

  lemma {:induction false} PassingIsEligible(m: Meta, w: WriteRequest)
    requires w.index < m.numPieces && Passes(m, w.index, w.data)
    ensures Eligible(m, {}, w)
  {
  }

  lemma {:induction false} IsCompletedIn(m: Meta, found: map<nat, bytes>, ss: seq<State>, i: nat, c: nat)
    ensures CompletedIn(m, found, ss, i, c) <==>
              Run(m, found, ss) && i < |ss| && RightLengths(m, found, ss[i].accepted) && c in ss[i].completed
  {
    hide Run, RightLengths;
  }

  lemma {:induction false} AlwaysInState(m: Meta, found: map<nat, bytes>, ss: seq<State>, i: nat, c: nat)
    requires AlwaysPasses(m) && CompletedIn(m, found, ss, i, c)
    ensures i < |ss| && PassesOnDisk(m, ss[i].contents, c)
  {
    hide Run, RightLengths, PassesOnDisk;
  }

  /**
   For exactly which torrents a completed piece passes the check in every state of every run with
   data of the right lengths: those of which any two passing data, joined at a file boundary, pass.
   */
  lemma {:induction false} NoExceptionIff(m: Meta)
    requires WellFormed(m)
    ensures AlwaysPasses(m) <==> MixesPass(m)
  {
    hide Run, RightLengths, PassesOnDisk, Passes, MixedAt, WellFormed;
    if MixesPass(m) {
      forall found: map<nat, bytes>, ss: seq<State>, i: nat, c: nat | CompletedIn(m, found, ss, i, c)
        ensures PassesOnDisk(m, ss[i].contents, c)
      {
        MixesPassNoException(m, found, ss, i, c);
      }
    }
    if AlwaysPasses(m) {
      forall c: nat, k: nat, d: bytes, e: bytes | c < m.numPieces && k <= |m.files| && Passes(m, c, d) && Passes(m, c, e)
        ensures |d| == |e| && m.hashOK(c, MixedAt(m, c, k, d, e))
      {
        AlwaysMixes(m, c, k, d, e);
      }
    }
  }

  lemma {:induction false} AlwaysMixes(m: Meta, c: nat, k: nat, d: bytes, e: bytes)
    requires WellFormed(m) && AlwaysPasses(m)
    requires c < m.numPieces && k <= |m.files| && Passes(m, c, d) && Passes(m, c, e)
    ensures |d| == |e| && m.hashOK(c, MixedAt(m, c, k, d, e))
  {
    hide *;
    PassesIs(m, c, d);
    PassesIs(m, c, e);
    if !m.hashOK(c, MixedAt(m, c, k, d, e)) {
      var ss := FailingMixShows(m, c, k, d, e);
      LastIs(ss);
      IsCompletedIn(m, map[], ss, |ss| - 1, c);
      AlwaysInState(m, map[], ss, |ss| - 1, c);
      assert false;
    }
  }

  /** One piece of two bytes over two files, and a check that two different blocks pass. */
  function TwoFiles(): Meta {
    Meta(2, [FileInfo(0, 0, 1), FileInfo(1, 1, 1)], 1, (i, d) => d == [0, 0] || d == [1, 1])
  }

  /** Not all torrents are of this kind, even if the check fixes the length. */
  lemma {:induction false} RewriteCanMix()
    ensures WellFormed(TwoFiles()) && HashFixesLength(TwoFiles()) && !AlwaysPasses(TwoFiles())
  {
    var m := TwoFiles();
    var fs := m.files;
    assert fs[..0] == [] && fs[..1] == [FileInfo(0, 0, 1)] && fs[..1][..0] == [];
    assert TotalLength(fs[..1]) == 1;
    assert Contiguous(fs);
    assert m.Total() == 2;
    var d: bytes, e: bytes := [1, 1], [0, 0];
    assert Passes(m, 0, d) && Passes(m, 0, e);
    assert Reached(fs, 0, 2, 1) == 1;
    assert MixedAt(m, 0, 1, d, e) == [1, 0];
    assert !m.hashOK(0, MixedAt(m, 0, 1, d, e));
    hide AlwaysPasses;
    NoExceptionIff(m);
  }
}
