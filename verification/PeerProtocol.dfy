/**
 The message handler of ctorrent/peer.cpp as a state machine, and what holds over every sequence
 of messages a remote peer may send. Answers that come from the rest of the client (is the piece
 done, was the block accepted, which piece is next, ...) are inputs of the step.
 */
module PeerProtocol {
  import opened Bytes
  import opened Wrappers
  import opened Wire
  import opened Tiling
  import opened Pieces

  /** `maxRequestSize`, the number of pieces, and `pieceSize`. */
  datatype Settings = Settings(max: nat, totalPieces: nat, pieceSize: nat -> nat)

  /** Block size positive, at most 2^32 pieces, and no piece empty or longer than 32 bits can say. */
  ghost predicate Valid(e: Settings) {
    && 0 < e.max
    && e.totalPieces <= TWO32
    && forall i: nat :: i < e.totalPieces ==> 0 < e.pieceSize(i) < TWO32
  }

  /** A piece being downloaded; an empty block is one that has not arrived. */
  datatype Piece = Piece(index: nat, currentBlocks: nat, numBlocks: nat, blocks: seq<bytes>)

  datatype BlockInfo = BlockInfo(index: nat, begin: nat, length: nat)

  datatype PeerState = PeerState(
    amChoked: bool, amInterested: bool, peerChoked: bool, peerInterested: bool,
    has: set<nat>, queue: seq<Piece>, requested: seq<BlockInfo>)

  /** What the torrent answers during the step. */
  datatype Answers = Answers(done: bool, readAccepted: bool, writeAccepted: bool, finished: bool, next: Option<nat>)

  datatype Input = Input(m: Message, ans: Answers)

  /** A finished piece handed to `handlePieceCompleted`. */
  datatype Delivery = Delivery(index: nat, data: bytes)

  /** The new state, the messages sent, the pieces handed over, and whether `handleError` closed the connection. */
  datatype Outcome = Outcome(state: PeerState, sent: seq<Message>, delivered: seq<Delivery>, closed: bool)

  // ---------- Parts of a step ----------

  /** The implicit conversion to `uint32_t`. */
  function U32(n: nat): uint32 { n % TWO32 }

  function AsRequests(index: nat, ts: seq<Tile>): (r: seq<Message>)
    ensures |r| == |ts|
  {
    seq(|ts|, k requires 0 <= k < |ts| => Request(U32(index), U32(ts[k].begin), U32(ts[k].length)))
  }

  function AsCancels(index: nat, ts: seq<Tile>): (r: seq<Message>)
    ensures |r| == |ts|
  {
    seq(|ts|, k requires 0 <= k < |ts| => Cancel(U32(index), U32(ts[k].begin), U32(ts[k].length)))
  }

  /** `requestPiece`. */
  function RequestPiece(e: Settings, index: nat): seq<Message>
    requires e.max > 0
  {
    AsRequests(index, Tiles(e.pieceSize(index), e.max))
  }

  /** `cancelPiece`. */
  function CancelPiece(e: Settings, index: nat): seq<Message>
    requires e.max > 0
  {
    AsCancels(index, Tiles(e.pieceSize(index), e.max))
  }

  /** The requests for all queued pieces, sent when the peer unchokes us. */
  function RequestAll(e: Settings, queue: seq<Piece>): seq<Message>
    requires e.max > 0
  {
    if queue == [] then [] else RequestAll(e, queue[..|queue| - 1]) + RequestPiece(e, queue[|queue| - 1].index)
  }

  function NumBlocks(e: Settings, index: nat): nat
    requires e.max > 0
  {
    CeilDiv(U32(e.pieceSize(index)), e.max)
  }

  function NewPiece(e: Settings, index: nat): Piece
    requires e.max > 0
  {
    Piece(index, 0, NumBlocks(e, index), NoBlocks(NumBlocks(e, index)))
  }

  function NoBlocks(n: nat): (r: seq<bytes>)
    ensures |r| == n && forall k :: 0 <= k < n ==> r[k] == []
  {
    seq(n, _ => [])
  }

  function Stay(st: PeerState, sent: seq<Message>): Outcome {
    Outcome(st, sent, [], false)
  }

  function Close(st: PeerState): Outcome {
    Outcome(st, [], [], true)
  }

  /** `Torrent::requestPiece` and, if a piece was found, `sendPieceRequest`. */
  function RequestNext(e: Settings, st: PeerState, next: Option<nat>): Outcome
    requires e.max > 0
  {
    if next.None? then Stay(st, [])
    else
      Stay(st.(amInterested := true, queue := st.queue + [NewPiece(e, next.value)]),
           [Interested] + if st.peerChoked then [] else RequestPiece(e, next.value))
  }

  /** The position of the first queued piece with this index, or the length of the queue. */
  function FindPiece(queue: seq<Piece>, index: nat): (k: nat)
    ensures k <= |queue|
    ensures k < |queue| ==> queue[k].index == index
    ensures forall j :: 0 <= j < k ==> queue[j].index != index
  {
    if queue == [] || queue[0].index == index then 0
    else
      var k := FindPiece(queue[1..], index);
      assert forall j :: 0 < j < k + 1 ==> queue[j] == queue[1..][j - 1];
      k + 1
  }

  /** The position of the first remembered request equal to `b`, or the length of the list if there is none. */
  function FindRequested(requested: seq<BlockInfo>, b: BlockInfo): (k: nat)
    ensures k <= |requested|
    ensures k < |requested| ==> requested[k] == b
    ensures forall j :: 0 <= j < k ==> requested[j] != b
  {
    if requested == [] || requested[0] == b then 0
    else
      var k := FindRequested(requested[1..], b);
      assert forall j :: 0 < j < k + 1 ==> requested[j] == requested[1..][j - 1];
      k + 1
  }

  function Without<T>(s: seq<T>, k: nat): (r: seq<T>)
    requires k < |s|
    ensures |r| == |s| - 1
  {
    s[..k] + s[k + 1..]
  }

  predicate BitAt(bits: bytes, i: nat) {
    i / 8 < |bits| && (bits[i / 8] / Pow2(7 - i % 8)) % 2 == 1
  }

  function Pow2(n: nat): (r: nat)
    ensures r > 0
  {
    if n == 0 then 1 else 2 * Pow2(n - 1)
  }

  /** The pieces announced by a bitfield message: most significant bit first. */
  function BitfieldSet(e: Settings, bits: bytes): set<nat> {
    set i: nat | i < e.totalPieces && BitAt(bits, i)
  }

  /** The block is put into its slot, and counted, whether or not the slot was filled before. */
  function Store(p: Piece, k: nat, block: bytes): Piece
    requires k < |p.blocks|
  {
    p.(blocks := p.blocks[k := block], currentBlocks := p.currentBlocks + 1)
  }

  /** The piece is handed over; then a choke, nothing, or a request for the next piece. */
  function Finish(e: Settings, st: PeerState, p: Piece, ans: Answers): Outcome
    requires e.max > 0
  {
    var after :=
      if !ans.writeAccepted then Stay(st.(amChoked := true), [Choke])
      else if ans.finished then Stay(st, [])
      else RequestNext(e, st, ans.next);
    after.(delivered := [Delivery(p.index, Flatten(p.blocks))])
  }

  /** A block for queued piece `q`, slot `slot`. */
  function TakeBlock(e: Settings, st: PeerState, q: nat, slot: nat, block: bytes, ans: Answers): Outcome
    requires e.max > 0 && q < |st.queue|
  {
    var p := st.queue[q];
    if slot >= p.numBlocks || slot >= |p.blocks| then Close(st)
    else if ans.done then Stay(st.(queue := Without(st.queue, q)), CancelPiece(e, p.index))
    else
      var p' := Store(p, slot, block);
      if p'.currentBlocks != p'.numBlocks then Stay(st.(queue := st.queue[q := p']), [])
      else Finish(e, st.(queue := Without(st.queue, q)), p', ans)
  }

  /** `handleMessage`. */
  function Step(e: Settings, st: PeerState, m: Message, ans: Answers): Outcome
    requires e.max > 0
  {
    match m
    case KeepAlive => Stay(st, [])
    case Choke => Stay(st.(peerChoked := true), [])
    case UnChoke => Stay(st.(peerChoked := false), RequestAll(e, st.queue))
    case Interested =>
      if st.amChoked then Stay(st.(peerInterested := true, amChoked := false), [UnChoke])
      else Stay(st.(peerInterested := true), [])
    case NotInterested => Stay(st.(peerInterested := false), [])
    case Have(i) => Stay(if i < e.totalPieces then st.(has := st.has + {i}) else st, [])
    case Bitfield(bits) =>
      var st' := st.(has := st.has + BitfieldSet(e, bits));
      if ans.finished then Stay(st', []) else RequestNext(e, st', ans.next)
    case Request(i, b, l) =>
      if !st.peerInterested || st.amChoked || l > e.max then Close(st)
      else if !ans.readAccepted then Stay(st.(amChoked := true), [Choke])
      else Stay(st.(requested := st.requested + [BlockInfo(i, b, l)]), [])
    case PieceBlock(i, b, block) =>
      var q := FindPiece(st.queue, i);
      if block == [] || |block| > e.max || q == |st.queue| then Close(st)
      else TakeBlock(e, st, q, b / e.max, block, ans)
    case Cancel(i, b, l) =>
      var k := FindRequested(st.requested, BlockInfo(i, b, l));
      Stay(if k < |st.requested| then st.(requested := Without(st.requested, k)) else st, [])
    case Port(_) => Stay(st, [])
    case Unknown(_, _) => Stay(st, [])
  }

  /** A whole exchange: the inputs in order, until the connection is closed. */
  function Run(e: Settings, st: PeerState, inputs: seq<Input>): Outcome
    requires e.max > 0
    decreases |inputs|
  {
    if inputs == [] then Stay(st, [])
    else
      var o := Step(e, st, inputs[0].m, inputs[0].ans);
      if o.closed then o
      else
        var rest := Run(e, o.state, inputs[1..]);
        Outcome(rest.state, o.sent + rest.sent, o.delivered + rest.delivered, rest.closed)
  }

  // ---------- What holds over every exchange ----------

  function Filled(blocks: seq<bytes>): nat {
    if blocks == [] then 0 else Filled(blocks[..|blocks| - 1]) + if blocks[|blocks| - 1] == [] then 0 else 1
  }

  /** A queued piece is unfinished, has counted at least the blocks it holds, and holds no oversized block. */
  predicate PieceOk(e: Settings, p: Piece)
    requires e.max > 0
  {
    && p.index < e.totalPieces
    && p.numBlocks == NumBlocks(e, p.index) == |p.blocks|
    && p.currentBlocks < p.numBlocks
    && Filled(p.blocks) <= p.currentBlocks
    && forall k :: 0 <= k < |p.blocks| ==> |p.blocks[k]| <= e.max
  }

  predicate QueueOk(e: Settings, queue: seq<Piece>)
    requires e.max > 0
  {
    forall k :: 0 <= k < |queue| ==> PieceOk(e, queue[k])
  }

  /** The scheduler hands out only pieces of the torrent. */
  predicate AnswerOk(e: Settings, ans: Answers) {
    ans.next.Some? ==> ans.next.value < e.totalPieces
  }

  lemma {:induction false} FilledUpdate(blocks: seq<bytes>, k: nat, b: bytes)
    requires k < |blocks|
    ensures Filled(blocks[k := b]) <= Filled(blocks) + 1
  {
    var n := |blocks| - 1;
    if k == n {
      assert blocks[k := b][..n] == blocks[..n];
    } else {
      FilledUpdate(blocks[..n], k, b);
      assert blocks[k := b][..n] == blocks[..n][k := b];
    }
  }

  lemma {:induction false} NoneFilled(blocks: seq<bytes>)
    requires forall k :: 0 <= k < |blocks| ==> blocks[k] == []
    ensures Filled(blocks) == 0
  {
    if blocks == [] {
    } else {
      NoneFilled(blocks[..|blocks| - 1]);
    }
  }

  lemma {:induction false} NewPieceOk(e: Settings, index: nat)
    requires Valid(e) && index < e.totalPieces
    ensures PieceOk(e, NewPiece(e, index))
  {
    CeilDivBounds(e.pieceSize(index), e.max);
    NoneFilled(NoBlocks(NumBlocks(e, index)));
  }

  lemma {:induction false} StoreOk(e: Settings, p: Piece, k: nat, block: bytes)
    requires e.max > 0 && PieceOk(e, p) && k < |p.blocks| && |block| <= e.max
    ensures var p' := Store(p, k, block);
            && (p'.currentBlocks != p'.numBlocks ==> PieceOk(e, p'))
            && |Flatten(p'.blocks)| <= p'.numBlocks * e.max
  {
    FilledUpdate(p.blocks, k, block);
    FlattenBound(Store(p, k, block).blocks, e.max);
  }

  lemma {:induction false} WithoutElements<T>(s: seq<T>, k: nat, j: nat)
    requires k < |s| && j < |s| - 1
    ensures Without(s, k)[j] == if j < k then s[j] else s[j + 1]
  {
  }

  lemma {:induction false} QueueWithout(e: Settings, queue: seq<Piece>, k: nat)
    requires e.max > 0 && QueueOk(e, queue) && k < |queue|
    ensures QueueOk(e, Without(queue, k))
  {
    hide PieceOk;
    forall j | 0 <= j < |queue| - 1
      ensures PieceOk(e, Without(queue, k)[j])
    {
      WithoutElements(queue, k, j);
    }
  }

  lemma {:induction false} RequestNextOk(e: Settings, st: PeerState, next: Option<nat>)
    requires Valid(e) && QueueOk(e, st.queue)
    requires next.Some? ==> next.value < e.totalPieces
    ensures QueueOk(e, RequestNext(e, st, next).state.queue)
  {
    hide PieceOk, RequestPiece;
    if next.Some? {
      NewPieceOk(e, next.value);
    }
  }

  lemma {:induction false} TakeBlockOk(e: Settings, st: PeerState, q: nat, slot: nat, block: bytes, ans: Answers)
    requires Valid(e) && QueueOk(e, st.queue) && AnswerOk(e, ans)
    requires q < |st.queue| && |block| <= e.max
    ensures var o := TakeBlock(e, st, q, slot, block, ans);
            && QueueOk(e, o.state.queue)
            && forall j :: 0 <= j < |o.delivered| ==>
                 && o.delivered[j].index < e.totalPieces
                 && |o.delivered[j].data| <= NumBlocks(e, o.delivered[j].index) * e.max
  {
    hide RequestPiece, CancelPiece, RequestNext, Without, Filled;
    var p := st.queue[q];
    assert PieceOk(e, p);
    QueueWithout(e, st.queue, q);
    if slot < p.numBlocks {
      StoreOk(e, p, slot, block);
      RequestNextOk(e, st.(queue := Without(st.queue, q)), ans.next);
    }
  }

  /** Any message keeps the queue in order and hands over no more than the reserved capacity. */
  lemma {:induction false} StepOk(e: Settings, st: PeerState, m: Message, ans: Answers)
    requires Valid(e) && QueueOk(e, st.queue) && AnswerOk(e, ans)
    ensures var o := Step(e, st, m, ans);
            && QueueOk(e, o.state.queue)
            && forall j :: 0 <= j < |o.delivered| ==>
                 && o.delivered[j].index < e.totalPieces
                 && |o.delivered[j].data| <= NumBlocks(e, o.delivered[j].index) * e.max
  {
    hide QueueOk, TakeBlock, RequestNext, RequestAll, NumBlocks, BitfieldSet;
    match m
    case PieceBlock(i, b, block) =>
      var q := FindPiece(st.queue, i);
      if block != [] && |block| <= e.max && q < |st.queue| {
        TakeBlockOk(e, st, q, b / e.max, block, ans);
      }
    case Bitfield(bits) =>
      RequestNextOk(e, st.(has := st.has + BitfieldSet(e, bits)), ans.next);
      RequestNextDelivers(e, st.(has := st.has + BitfieldSet(e, bits)), ans.next);
    case _ =>
  }

  lemma {:induction false} RequestNextDelivers(e: Settings, st: PeerState, next: Option<nat>)
    requires e.max > 0
    ensures RequestNext(e, st, next).delivered == [] && !RequestNext(e, st, next).closed
    ensures RequestNext(e, st, next).state.queue
         == st.queue + if next.None? then [] else [NewPiece(e, next.value)]
  {
    hide RequestPiece, NewPiece;
  }

  /**
   Over every message sequence, duplicates, wrong sizes and repeated unchokes included: the
   queue stays in order, and every piece handed over fits the capacity reserved for it.
   */
  lemma {:induction false} RunOk(e: Settings, st: PeerState, inputs: seq<Input>)
    requires Valid(e) && QueueOk(e, st.queue)
    requires forall i :: 0 <= i < |inputs| ==> AnswerOk(e, inputs[i].ans)
    ensures var o := Run(e, st, inputs);
            && QueueOk(e, o.state.queue)
            && forall j :: 0 <= j < |o.delivered| ==>
                 && o.delivered[j].index < e.totalPieces
                 && |o.delivered[j].data| <= NumBlocks(e, o.delivered[j].index) * e.max
    decreases |inputs|
  {
    hide QueueOk, Step, AnswerOk, NumBlocks;
    if inputs == [] {
    } else {
      StepOk(e, st, inputs[0].m, inputs[0].ans);
      var o := Step(e, st, inputs[0].m, inputs[0].ans);
      if !o.closed {
        RunOk(e, o.state, inputs[1..]);
      }
    }
  }

  // ---------- Requests of the remote peer ----------

  /** A request is accepted when it is neither answered with a choke nor with closing the connection. */
  predicate Accepts(e: Settings, st: PeerState, input: Input)
    requires e.max > 0
  {
    input.m.Request? && !Step(e, st, input.m, input.ans).closed && Step(e, st, input.m, input.ans).sent == []
  }

  /** The request that this input adds to those remembered, if it is accepted. */
  function AcceptedNow(e: Settings, st: PeerState, input: Input): seq<BlockInfo>
    requires e.max > 0
  {
    if Accepts(e, st, input) then [BlockInfo(input.m.index, input.m.begin, input.m.length)] else []
  }

  /** The remembered request that this input takes back, if it is a cancel for one. */
  function CancelledNow(st: PeerState, m: Message): seq<BlockInfo> {
    if m.Cancel? && BlockInfo(m.index, m.begin, m.length) in st.requested then [BlockInfo(m.index, m.begin, m.length)] else []
  }

  /** The requests accepted in an exchange. */
  function Accepted(e: Settings, st: PeerState, inputs: seq<Input>): seq<BlockInfo>
    requires e.max > 0
    decreases |inputs|
  {
    if inputs == [] then []
    else
      var o := Step(e, st, inputs[0].m, inputs[0].ans);
      AcceptedNow(e, st, inputs[0]) + if o.closed then [] else Accepted(e, o.state, inputs[1..])
  }

  /** The requests remembered when a cancel for them arrived. */
  function Cancelled(e: Settings, st: PeerState, inputs: seq<Input>): seq<BlockInfo>
    requires e.max > 0
    decreases |inputs|
  {
    if inputs == [] then []
    else
      var o := Step(e, st, inputs[0].m, inputs[0].ans);
      CancelledNow(st, inputs[0].m) + if o.closed then [] else Cancelled(e, o.state, inputs[1..])
  }

  lemma {:induction false} WithoutAccounts(s: seq<BlockInfo>, k: nat)
    requires k < |s|
    ensures multiset(Without(s, k)) + multiset{s[k]} == multiset(s)
    ensures forall b :: b in Without(s, k) ==> b in s
  {
    assert s == s[..k] + [s[k]] + s[k + 1..];
  }

  lemma {:induction false} NotFound(s: seq<BlockInfo>, b: BlockInfo)
    ensures FindRequested(s, b) == |s| <==> b !in s
  {
    hide FindRequested;
  }

  // One step adds what it accepts, removes what it cancels, and leaves the rest of the list alone.
  lemma {:induction false} StepAccounts(e: Settings, st: PeerState, input: Input)
    requires e.max > 0
    ensures var m, o := input.m, Step(e, st, input.m, input.ans);
            && (!m.Cancel? ==> o.state.requested == st.requested + AcceptedNow(e, st, input))
            && (m.Cancel? ==>
                  && multiset(o.state.requested) + multiset(CancelledNow(st, m)) == multiset(st.requested)
                  && forall x :: x in o.state.requested ==> x in st.requested)
    ensures Accepts(e, st, input) ==> input.m.length <= e.max
  {
    match input.m
    case Request(i, b, l) =>
      hide TakeBlock, RequestNext, RequestAll, BitfieldSet, FindPiece, FindRequested;
    case Cancel(i, b, l) =>
      CancelAccounts(e, st, input);
    case _ =>
      OtherKeepsRequested(e, st, input);
      hide Step;
  }

  lemma {:induction false} CancelAccounts(e: Settings, st: PeerState, input: Input)
    requires e.max > 0 && input.m.Cancel?
    ensures var o := Step(e, st, input.m, input.ans);
            && multiset(o.state.requested) + multiset(CancelledNow(st, input.m)) == multiset(st.requested)
            && forall x :: x in o.state.requested ==> x in st.requested
  {
    hide FindRequested, Without;
    var b := BlockInfo(input.m.index, input.m.begin, input.m.length);
    var k := FindRequested(st.requested, b);
    NotFound(st.requested, b);
    if k < |st.requested| {
      WithoutAccounts(st.requested, k);
    }
  }

  lemma {:induction false} OtherKeepsRequested(e: Settings, st: PeerState, input: Input)
    requires e.max > 0 && !input.m.Request? && !input.m.Cancel?
    ensures Step(e, st, input.m, input.ans).state.requested == st.requested
    ensures AcceptedNow(e, st, input) == [] && st.requested + [] == st.requested
  {
    hide TakeBlock, RequestNext, RequestAll, BitfieldSet, FindPiece, Without;
    match input.m
    case PieceBlock(i, b, block) =>
      var q := FindPiece(st.queue, i);
      if q < |st.queue| {
        TakeKeepsRequested(e, st, q, b / e.max, block, input.ans);
      }
    case Bitfield(bits) =>
      NextKeepsRequested(e, st.(has := st.has + BitfieldSet(e, bits)), input.ans.next);
    case _ =>
  }

  lemma {:induction false} ConcatCount(a: seq<BlockInfo>, b: seq<BlockInfo>)
    ensures multiset(a + b) == multiset(a) + multiset(b)
  {
  }

  lemma {:induction false} AddUp(start: multiset<BlockInfo>, middle: multiset<BlockInfo>, end: multiset<BlockInfo>,
                                 in1: multiset<BlockInfo>, in2: multiset<BlockInfo>,
                                 out1: multiset<BlockInfo>, out2: multiset<BlockInfo>)
    requires middle + out1 == start + in1 && end + out2 == middle + in2
    ensures end + (out1 + out2) == start + (in1 + in2)
  {
    assert end + (out1 + out2) == (end + out2) + out1;
    assert (middle + in2) + out1 == (middle + out1) + in2;
  }

  lemma {:induction false} StepBalance(e: Settings, st: PeerState, input: Input)
    requires e.max > 0
    ensures multiset(Step(e, st, input.m, input.ans).state.requested) + multiset(CancelledNow(st, input.m))
         == multiset(st.requested) + multiset(AcceptedNow(e, st, input))
  {
    StepAccounts(e, st, input);
    hide Step;
    if input.m.Cancel? {
      assert AcceptedNow(e, st, input) == [];
    } else {
      ConcatCount(st.requested, AcceptedNow(e, st, input));
      assert CancelledNow(st, input.m) == [];
    }
  }

  lemma {:induction false} NextKeepsRequested(e: Settings, st: PeerState, next: Option<nat>)
    requires e.max > 0
    ensures RequestNext(e, st, next).state.requested == st.requested
  {
    hide RequestPiece, NewPiece;
  }

  lemma {:induction false} TakeKeepsRequested(e: Settings, st: PeerState, q: nat, slot: nat, block: bytes, ans: Answers)
    requires e.max > 0 && q < |st.queue|
    ensures TakeBlock(e, st, q, slot, block, ans).state.requested == st.requested
  {
    NextKeepsRequested(e, st.(queue := Without(st.queue, q)), ans.next);
    hide RequestNext, CancelPiece, Flatten, Without;
  }

  /**
   Bookkeeping over every exchange: what is remembered at the end are, as often as they occur, the
   requests remembered at the start and those accepted, without those cancelled.
   */
  lemma {:induction false} RequestsAccount(e: Settings, st: PeerState, inputs: seq<Input>)
    requires e.max > 0
    ensures multiset(Run(e, st, inputs).state.requested) + multiset(Cancelled(e, st, inputs))
         == multiset(st.requested) + multiset(Accepted(e, st, inputs))
    decreases |inputs|
  {
    hide Step, AcceptedNow, CancelledNow;
    if inputs == [] {
    } else {
      var o := Step(e, st, inputs[0].m, inputs[0].ans);
      StepBalance(e, st, inputs[0]);
      if !o.closed {
        RequestsAccount(e, o.state, inputs[1..]);
        ConcatCount(AcceptedNow(e, st, inputs[0]), Accepted(e, o.state, inputs[1..]));
        ConcatCount(CancelledNow(st, inputs[0].m), Cancelled(e, o.state, inputs[1..]));
        AddUp(multiset(st.requested), multiset(o.state.requested), multiset(Run(e, st, inputs).state.requested),
              multiset(AcceptedNow(e, st, inputs[0])), multiset(Accepted(e, o.state, inputs[1..])),
              multiset(CancelledNow(st, inputs[0].m)), multiset(Cancelled(e, o.state, inputs[1..])));
      } else {
        assert AcceptedNow(e, st, inputs[0]) + [] == AcceptedNow(e, st, inputs[0]);
        assert CancelledNow(st, inputs[0].m) + [] == CancelledNow(st, inputs[0].m);
      }
    }
  }

  /** No request longer than the largest block size is ever remembered. */
  lemma {:induction false} RequestsBounded(e: Settings, st: PeerState, inputs: seq<Input>)
    requires e.max > 0
    requires forall b :: b in st.requested ==> b.length <= e.max
    ensures forall b :: b in Run(e, st, inputs).state.requested ==> b.length <= e.max
    decreases |inputs|
  {
    hide Step, Accepts;
    if inputs == [] {
    } else {
      var o := Step(e, st, inputs[0].m, inputs[0].ans);
      StepAccounts(e, st, inputs[0]);
      assert inputs[0].m.Cancel? ==> forall b :: b in o.state.requested ==> b in st.requested;
      if !o.closed {
        RequestsBounded(e, o.state, inputs[1..]);
      }
    }
  }

  // ---------- What the two sides have told each other ----------

  /** Whether we choke the remote peer, as far as it can know: the last choke or unchoke among `sent`. */
  function ToldChoked(start: bool, sent: seq<Message>): bool
    decreases |sent|
  {
    if sent == [] then start
    else ToldChoked(if sent[0].Choke? then true else if sent[0].UnChoke? then false else start, sent[1..])
  }

  /** Whether the remote peer is interested, as it said last. */
  function SaysInterested(start: bool, inputs: seq<Input>): bool
    decreases |inputs|
  {
    if inputs == [] then start
    else SaysInterested(if inputs[0].m.Interested? then true else if inputs[0].m.NotInterested? then false else start, inputs[1..])
  }

  lemma {:induction false} ToldConcat(start: bool, a: seq<Message>, b: seq<Message>)
    ensures ToldChoked(start, a + b) == ToldChoked(ToldChoked(start, a), b)
    decreases |a|
  {
    if a == [] {
      assert a + b == b;
    } else {
      assert (a + b)[1..] == a[1..] + b;
      ToldConcat(if a[0].Choke? then true else if a[0].UnChoke? then false else start, a[1..], b);
    }
  }

  predicate NoChoke(sent: seq<Message>) {
    forall k :: 0 <= k < |sent| ==> !sent[k].Choke? && !sent[k].UnChoke?
  }

  lemma {:induction false} ToldNothing(start: bool, sent: seq<Message>)
    requires NoChoke(sent)
    ensures ToldChoked(start, sent) == start
    decreases |sent|
  {
    if sent == [] {
    } else {
      ToldNothing(start, sent[1..]);
    }
  }

  lemma {:induction false} RequestsTellNothing(e: Settings, queue: seq<Piece>, index: nat)
    requires e.max > 0
    ensures NoChoke(RequestAll(e, queue)) && NoChoke(RequestPiece(e, index)) && NoChoke(CancelPiece(e, index))
    decreases |queue|
  {
    hide U32, Tiles;
    if queue != [] {
      RequestsTellNothing(e, queue[..|queue| - 1], queue[|queue| - 1].index);
    }
  }

  lemma {:induction false} NextTells(e: Settings, st: PeerState, next: Option<nat>)
    requires e.max > 0
    ensures var o := RequestNext(e, st, next); ToldChoked(st.amChoked, o.sent) == o.state.amChoked == st.amChoked
    ensures RequestNext(e, st, next).state.peerInterested == st.peerInterested
  {
    if next.Some? {
      RequestsTellNothing(e, [], next.value);
    }
    hide RequestPiece, NewPiece;
    ToldNothing(st.amChoked, RequestNext(e, st, next).sent);
  }

  lemma {:induction false} TakeTells(e: Settings, st: PeerState, q: nat, slot: nat, block: bytes, ans: Answers)
    requires e.max > 0 && q < |st.queue|
    ensures var o := TakeBlock(e, st, q, slot, block, ans);
            ToldChoked(st.amChoked, o.sent) == o.state.amChoked && o.state.peerInterested == st.peerInterested
  {
    RequestsTellNothing(e, [], st.queue[q].index);
    ToldNothing(st.amChoked, CancelPiece(e, st.queue[q].index));
    NextTells(e, st.(queue := Without(st.queue, q)), ans.next);
    hide RequestNext, CancelPiece, Flatten, Without;
    assert [Choke][1..] == [];
  }

  // Every step tells the remote peer when it starts or ends choking it, and notes what the peer says.
  lemma {:induction false} StepTells(e: Settings, st: PeerState, input: Input)
    requires e.max > 0
    ensures var m, o := input.m, Step(e, st, input.m, input.ans);
            && o.state.amChoked == ToldChoked(st.amChoked, o.sent)
            && o.state.peerInterested == if m.Interested? then true else if m.NotInterested? then false else st.peerInterested
  {
    hide TakeBlock, RequestNext, RequestAll, BitfieldSet, FindPiece, FindRequested, Without;
    assert [Choke][1..] == [] && [UnChoke][1..] == [];
    match input.m
    case UnChoke =>
      RequestsTellNothing(e, st.queue, 0);
      ToldNothing(st.amChoked, RequestAll(e, st.queue));
    case PieceBlock(i, b, block) =>
      var q := FindPiece(st.queue, i);
      if q < |st.queue| {
        TakeTells(e, st, q, b / e.max, block, input.ans);
      }
    case Bitfield(bits) =>
      NextTells(e, st.(has := st.has + BitfieldSet(e, bits)), input.ans.next);
    case _ =>
  }

  /** Over every exchange: whether we choke the peer is what it was told last, whether it is interested what it said last. */
  lemma {:induction false} RunTells(e: Settings, st: PeerState, inputs: seq<Input>)
    requires e.max > 0
    ensures var o := Run(e, st, inputs);
            && o.state.amChoked == ToldChoked(st.amChoked, o.sent)
            && (!o.closed ==> o.state.peerInterested == SaysInterested(st.peerInterested, inputs))
    decreases |inputs|
  {
    hide Step;
    if inputs == [] {
    } else {
      var o := Step(e, st, inputs[0].m, inputs[0].ans);
      StepTells(e, st, inputs[0]);
      if !o.closed {
        RunTells(e, o.state, inputs[1..]);
        ToldConcat(st.amChoked, o.sent, Run(e, o.state, inputs[1..]).sent);
      }
    }
  }

  /**
   Which requests are accepted, in terms of the messages alone: after any exchange, a request is
   accepted iff the remote peer last said that it is interested, was last told that it is not
   choked, asks for no more than the largest block, and the read is accepted.
   */
  lemma {:induction false} AcceptedIff(e: Settings, st: PeerState, inputs: seq<Input>, input: Input)
    requires e.max > 0 && input.m.Request? && !Run(e, st, inputs).closed
    ensures var o := Run(e, st, inputs);
            Accepts(e, o.state, input) <==>
              && SaysInterested(st.peerInterested, inputs) && !ToldChoked(st.amChoked, o.sent)
              && input.m.length <= e.max && input.ans.readAccepted
  {
    RunTells(e, st, inputs);
    hide Run, SaysInterested, ToldChoked;
  }

  // ---------- One piece among the others ----------

  /** The first queued piece with index `i`. */
  function First(queue: seq<Piece>, i: nat): Option<Piece> {
    var k := FindPiece(queue, i);
    if k < |queue| then Some(queue[k]) else None
  }

  lemma {:induction false} FindUnique(queue: seq<Piece>, i: nat, k: nat)
    requires k < |queue| && queue[k].index == i
    requires forall j :: 0 <= j < k ==> queue[j].index != i
    ensures FindPiece(queue, i) == k
  {
  }

  lemma {:induction false} FirstAppend(queue: seq<Piece>, i: nat, p: Piece)
    requires First(queue, i).Some?
    ensures First(queue + [p], i) == First(queue, i)
  {
    FindUnique(queue + [p], i, FindPiece(queue, i));
  }

  lemma {:induction false} FirstUpdateOther(queue: seq<Piece>, i: nat, q: nat, p: Piece)
    requires First(queue, i).Some? && q < |queue| && queue[q].index == p.index != i
    ensures First(queue[q := p], i) == First(queue, i)
  {
    FindUnique(queue[q := p], i, FindPiece(queue, i));
  }

  lemma {:induction false} FirstWithoutOther(queue: seq<Piece>, i: nat, q: nat)
    requires First(queue, i).Some? && q < |queue| && queue[q].index != i
    ensures First(Without(queue, q), i) == First(queue, i)
  {
    var k := FindPiece(queue, i);
    var r := Without(queue, q);
    if k < q {
      FindUnique(r, i, k);
    } else {
      FindUnique(r, i, k - 1);
    }
  }

  /** The pieces with index `i` among those handed over. */
  function Delivered(ds: seq<Delivery>, i: nat): seq<bytes> {
    if ds == [] then []
    else (if ds[0].index == i then [ds[0].data] else []) + Delivered(ds[1..], i)
  }

  lemma {:induction false} DeliveredConcat(a: seq<Delivery>, b: seq<Delivery>, i: nat)
    ensures Delivered(a + b, i) == Delivered(a, i) + Delivered(b, i)
    decreases |a|
  {
    if a == [] {
      assert a + b == b;
    } else {
      assert (a + b)[1..] == a[1..] + b;
      DeliveredConcat(a[1..], b, i);
    }
  }

  predicate IsBlockOf(m: Message, i: nat) {
    m.PieceBlock? && m.index == i
  }

  lemma {:induction false} OneDelivery(d: Delivery, i: nat)
    ensures Delivered([], i) == []
    ensures Delivered([d], i) == if d.index == i then [d.data] else []
  {
    assert [d][1..] == [];
  }

  // A block for another piece leaves piece i alone.
  lemma {:induction false} TakeOther(e: Settings, st: PeerState, q: nat, slot: nat, block: bytes, ans: Answers, i: nat)
    requires e.max > 0 && q < |st.queue| && st.queue[q].index != i && First(st.queue, i).Some?
    ensures var o := TakeBlock(e, st, q, slot, block, ans);
            First(o.state.queue, i) == First(st.queue, i) && Delivered(o.delivered, i) == []
  {
    hide CancelPiece, RequestNext, Without, First, Delivered, NewPiece, Flatten;
    var p := st.queue[q];
    OneDelivery(Delivery(p.index, []), i);
    if slot < p.numBlocks && slot < |p.blocks| {
      var p' := Store(p, slot, block);
      OneDelivery(Delivery(p.index, Flatten(p'.blocks)), i);
      FirstUpdateOther(st.queue, i, q, p');
      FirstWithoutOther(st.queue, i, q);
      var st' := st.(queue := Without(st.queue, q));
      RequestNextDelivers(e, st', ans.next);
      if ans.next.Some? {
        FirstAppend(st'.queue, i, NewPiece(e, ans.next.value));
      } else {
        assert st'.queue + [] == st'.queue;
      }
    }
  }

  /** Any message that is not a block of piece i leaves the progress of piece i alone. */
  lemma {:induction false} StepOther(e: Settings, st: PeerState, m: Message, ans: Answers, i: nat)
    requires e.max > 0 && !IsBlockOf(m, i) && First(st.queue, i).Some?
    ensures var o := Step(e, st, m, ans);
            First(o.state.queue, i) == First(st.queue, i) && Delivered(o.delivered, i) == []
  {
    hide TakeBlock, RequestNext, RequestAll, BitfieldSet, First, Delivered, NewPiece;
    OneDelivery(Delivery(0, []), i);
    match m
    case PieceBlock(j, b, block) =>
      var q := FindPiece(st.queue, j);
      if block != [] && |block| <= e.max && q < |st.queue| {
        TakeOther(e, st, q, b / e.max, block, ans, i);
      }
    case Bitfield(bits) =>
      RequestNextDelivers(e, st.(has := st.has + BitfieldSet(e, bits)), ans.next);
      if ans.next.Some? {
        FirstAppend(st.queue, i, NewPiece(e, ans.next.value));
      } else {
        assert st.queue + [] == st.queue;
      }
    case _ =>
  }

  // Only a block of piece i can complete piece i.
  lemma {:induction false} StepDeliversOwn(e: Settings, st: PeerState, m: Message, ans: Answers, i: nat)
    requires e.max > 0 && !IsBlockOf(m, i)
    ensures Delivered(Step(e, st, m, ans).delivered, i) == []
  {
    hide RequestNext, RequestAll, BitfieldSet, Delivered, NewPiece, Flatten, CancelPiece, Without;
    OneDelivery(Delivery(0, []), i);
    match m
    case PieceBlock(j, b, block) =>
      var q := FindPiece(st.queue, j);
      if q < |st.queue| && b / e.max < |st.queue[q].blocks| {
        OneDelivery(Delivery(j, Flatten(Store(st.queue[q], b / e.max, block).blocks)), i);
      }
    case Bitfield(bits) =>
      RequestNextDelivers(e, st.(has := st.has + BitfieldSet(e, bits)), ans.next);
    case _ =>
  }

  // ---------- Requests and blocks belong together ----------

  lemma {:induction false} MessageAt(index: uint32, ts: seq<Tile>, k: nat)
    requires k < |ts| && ts[k].begin < TWO32 && ts[k].length < TWO32
    ensures AsRequests(index, ts)[k] == Request(index, ts[k].begin, ts[k].length)
    ensures AsCancels(index, ts)[k] == Cancel(index, ts[k].begin, ts[k].length)
  {
  }

  lemma {:induction false} TileIsBlock(piece: bytes, max: nat, k: nat)
    requires max > 0 && piece != [] && k < |Tiles(|piece|, max)|
    ensures var t := Tiles(|piece|, max)[k];
            t.begin == k * max && t.begin + t.length <= |piece| && Block(piece, max, k) == piece[t.begin..t.begin + t.length]
  {
    TilesFromShape(0, |piece|, max);
    hide CeilDiv, TilesFrom;
    MulStep(k, max);
  }

  lemma {:induction false} RequestCount(e: Settings, i: nat)
    requires Valid(e) && i < e.totalPieces
    ensures |RequestPiece(e, i)| == |CancelPiece(e, i)| == |Tiles(e.pieceSize(i), e.max)| == NumBlocks(e, i)
    ensures 0 < e.pieceSize(i) < TWO32 && i < TWO32
  {
    TilesShape(e.pieceSize(i), e.max);
    hide CeilDiv, Tiles;
  }

  /**
   The requests and the cancels for a piece name the same blocks, and what they name is exactly
   the bytes the reassembly expects: request k asks for block k of the piece.
   */
  lemma {:induction false} RequestsNameBlocks(e: Settings, i: nat, piece: bytes, k: nat)
    requires Valid(e) && i < e.totalPieces && |piece| == e.pieceSize(i)
    ensures |RequestPiece(e, i)| == |CancelPiece(e, i)| == NumBlocks(e, i)
    ensures k < NumBlocks(e, i) ==>
              && k < |Tiles(e.pieceSize(i), e.max)|
              && var t := Tiles(e.pieceSize(i), e.max)[k];
                 && i < TWO32 && t.begin == k * e.max && t.begin + t.length <= |piece| < TWO32
                 && Block(piece, e.max, k) == piece[t.begin..t.begin + t.length]
                 && RequestPiece(e, i)[k] == Request(i, t.begin, t.length)
                 && CancelPiece(e, i)[k] == Cancel(i, t.begin, t.length)
  {
    RequestCount(e, i);
    hide NumBlocks, Block, Tiles, AsRequests, AsCancels;
    if k < NumBlocks(e, i) {
      TileIsBlock(piece, e.max, k);
      MessageAt(i, Tiles(e.pieceSize(i), e.max), k);
    }
  }

  /** A piece not yet queued is queued with all its blocks missing, and all of them are requested at once from an unchoked peer. */
  lemma {:induction false} RequestNextQueues(e: Settings, st: PeerState, i: nat)
    requires e.max > 0 && First(st.queue, i).None?
    ensures var o := RequestNext(e, st, Some(i));
            && First(o.state.queue, i) == Some(NewPiece(e, i))
            && o.sent == [Interested] + if st.peerChoked then [] else RequestPiece(e, i)
  {
    hide NewPiece, RequestPiece;
    NewPieceIndex(e, i);
    FindUnique(st.queue + [NewPiece(e, i)], i, |st.queue|);
  }

  lemma {:induction false} NewPieceIndex(e: Settings, i: nat)
    requires e.max > 0
    ensures NewPiece(e, i).index == i
  {
  }

  // ---------- Duplicates ----------

  /** Every slot of every queued copy of piece i is empty or holds the true block. */
  predicate Genuine(e: Settings, queue: seq<Piece>, i: nat, piece: bytes)
    requires e.max > 0
  {
    forall q :: 0 <= q < |queue| && queue[q].index == i ==> GenuineSlots(queue[q].blocks, NumBlocks(e, i), piece, e.max)
  }

  predicate GenuineSlots(blocks: seq<bytes>, n: nat, piece: bytes, max: nat)
    requires max > 0
  {
    |blocks| == n && forall k :: 0 <= k < n ==> blocks[k] == [] || blocks[k] == Block(piece, max, k)
  }

  lemma {:induction false} FlattenGenuine(piece: bytes, max: nat, blocks: seq<bytes>)
    requires max > 0
    requires |blocks| > 0 ==> (|blocks| - 1) * max < |piece|
    requires forall k :: 0 <= k < |blocks| ==> blocks[k] == [] || blocks[k] == Block(piece, max, k)
    ensures var whole := Tiling.Min(|blocks| * max, |piece|);
            Flatten(blocks) == piece[..whole] || |Flatten(blocks)| < whole
  {
    if blocks == [] {
    } else {
      var n := |blocks| - 1;
      MulStep(n, max);
      if n > 0 {
        MulMonotone(n - 1, n, max);
      }
      FlattenGenuine(piece, max, blocks[..n]);
    }
  }

  /** What is handed over is the true piece iff no slot was left empty, and shorter otherwise. */
  lemma {:induction false} GenuineDelivery(e: Settings, i: nat, piece: bytes, blocks: seq<bytes>)
    requires Valid(e) && i < e.totalPieces && |piece| == e.pieceSize(i)
    requires GenuineSlots(blocks, NumBlocks(e, i), piece, e.max)
    ensures Flatten(blocks) == piece <==> forall k :: 0 <= k < |blocks| ==> blocks[k] != []
    ensures Flatten(blocks) == piece || |Flatten(blocks)| < |piece|
  {
    CeilDivBounds(|piece|, e.max);
    FlattenGenuine(piece, e.max, blocks);
    assert piece[..|piece|] == piece;
    if forall k :: 0 <= k < |blocks| ==> blocks[k] != [] {
      FlattenBlocks(piece, e.max, blocks);
    } else {
      var k :| 0 <= k < |blocks| && blocks[k] == [];
      FlattenHole(piece, e.max, blocks, k);
    }
  }

  // An empty slot shortens the result.
  lemma {:induction false} FlattenHole(piece: bytes, max: nat, blocks: seq<bytes>, k: nat)
    requires max > 0 && k < |blocks| && blocks[k] == []
    requires (|blocks| - 1) * max < |piece|
    requires forall k :: 0 <= k < |blocks| ==> blocks[k] == [] || blocks[k] == Block(piece, max, k)
    ensures |Flatten(blocks)| < Tiling.Min(|blocks| * max, |piece|)
  {
    var n := |blocks| - 1;
    MulStep(n, max);
    if n > 0 {
      MulMonotone(n - 1, n, max);
    }
    if k == n {
      FlattenGenuine(piece, max, blocks[..n]);
    } else {
      FlattenHole(piece, max, blocks[..n], k);
    }
  }

  /** All blocks for piece i among the inputs are true blocks, however often they come. */
  predicate TrueBlocks(max: nat, i: nat, piece: bytes, inputs: seq<Input>)
    requires max > 0
  {
    forall j :: 0 <= j < |inputs| && IsBlockOf(inputs[j].m, i) ==>
      inputs[j].m.block == Block(piece, max, inputs[j].m.begin / max)
  }

  lemma {:induction false} EmptySlotsGenuine(e: Settings, i: nat, piece: bytes)
    requires e.max > 0
    ensures GenuineSlots(NewPiece(e, i).blocks, NumBlocks(e, i), piece, e.max) && NewPiece(e, i).index == i
  {
  }

  lemma {:induction false} GenuineNext(e: Settings, st: PeerState, next: Option<nat>, i: nat, piece: bytes)
    requires e.max > 0 && Genuine(e, st.queue, i, piece)
    ensures Genuine(e, RequestNext(e, st, next).state.queue, i, piece)
  {
    RequestNextDelivers(e, st, next);
    hide RequestNext, NewPiece, GenuineSlots;
    if next.Some? {
      EmptySlotsGenuine(e, next.value, piece);
    } else {
      assert st.queue + [] == st.queue;
    }
  }

  lemma {:induction false} GenuineWithout(e: Settings, queue: seq<Piece>, q: nat, i: nat, piece: bytes)
    requires e.max > 0 && Genuine(e, queue, i, piece) && q < |queue|
    ensures Genuine(e, Without(queue, q), i, piece)
  {
    hide GenuineSlots, Without, NumBlocks;
    forall j | 0 <= j < |Without(queue, q)| && Without(queue, q)[j].index == i
      ensures GenuineSlots(Without(queue, q)[j].blocks, NumBlocks(e, i), piece, e.max)
    {
      WithoutElements(queue, q, j);
    }
  }

  lemma {:induction false} TakeGenuine(e: Settings, st: PeerState, q: nat, slot: nat, block: bytes, ans: Answers, i: nat, piece: bytes)
    requires Valid(e) && i < e.totalPieces && |piece| == e.pieceSize(i)
    requires Genuine(e, st.queue, i, piece) && q < |st.queue|
    requires st.queue[q].index == i ==> block == Block(piece, e.max, slot)
    ensures var o := TakeBlock(e, st, q, slot, block, ans);
            && Genuine(e, o.state.queue, i, piece)
            && forall d :: d in Delivered(o.delivered, i) ==> d == piece || |d| < |piece|
  {
    hide RequestNext, Without, Flatten, CancelPiece, Delivered, NumBlocks, Block, CeilDiv;
    var p := st.queue[q];
    OneDelivery(Delivery(0, []), i);
    if slot < p.numBlocks && slot < |p.blocks| {
      var p' := Store(p, slot, block);
      OneDelivery(Delivery(p.index, Flatten(p'.blocks)), i);
      GenuineWithout(e, st.queue, q, i, piece);
      GenuineNext(e, st.(queue := Without(st.queue, q)), ans.next, i, piece);
      RequestNextDelivers(e, st.(queue := Without(st.queue, q)), ans.next);
      if p.index == i {
        GenuineDelivery(e, i, piece, p'.blocks);
      }
    }
  }

  lemma {:induction false} StepGenuine(e: Settings, st: PeerState, m: Message, ans: Answers, i: nat, piece: bytes)
    requires Valid(e) && i < e.totalPieces && |piece| == e.pieceSize(i)
    requires Genuine(e, st.queue, i, piece)
    requires IsBlockOf(m, i) ==> m.block == Block(piece, e.max, m.begin / e.max)
    ensures var o := Step(e, st, m, ans);
            && Genuine(e, o.state.queue, i, piece)
            && forall d :: d in Delivered(o.delivered, i) ==> d == piece || |d| < |piece|
  {
    hide TakeBlock, RequestNext, RequestAll, BitfieldSet, Delivered, Genuine, Block, NumBlocks;
    OneDelivery(Delivery(0, []), i);
    match m
    case PieceBlock(j, b, block) =>
      var q := FindPiece(st.queue, j);
      if block != [] && |block| <= e.max && q < |st.queue| {
        TakeGenuine(e, st, q, b / e.max, block, ans, i, piece);
      }
    case Bitfield(bits) =>
      GenuineNext(e, st.(has := st.has + BitfieldSet(e, bits)), ans.next, i, piece);
      RequestNextDelivers(e, st.(has := st.has + BitfieldSet(e, bits)), ans.next);
    case _ =>
  }

  /**
   Duplicates: the block counter also counts repeated blocks, so a piece may be handed over with
   holes. But if all blocks sent for it are true blocks, in any number and order, then what is
   handed over is the true piece or shorter, never a wrong piece of the right length.
   */
  lemma {:induction false} DuplicatesOnlyShorten(e: Settings, st: PeerState, i: nat, piece: bytes, inputs: seq<Input>)
    requires Valid(e) && i < e.totalPieces && |piece| == e.pieceSize(i)
    requires Genuine(e, st.queue, i, piece) && TrueBlocks(e.max, i, piece, inputs)
    ensures forall d :: d in Delivered(Run(e, st, inputs).delivered, i) ==> d == piece || |d| < |piece|
    decreases |inputs|
  {
    hide Step, Delivered, Genuine, Block;
    OneDelivery(Delivery(0, []), i);
    if inputs == [] {
    } else {
      var o := Step(e, st, inputs[0].m, inputs[0].ans);
      StepGenuine(e, st, inputs[0].m, inputs[0].ans, i, piece);
      if !o.closed {
        DuplicatesOnlyShorten(e, o.state, i, piece, inputs[1..]);
        DeliveredConcat(o.delivered, Run(e, o.state, inputs[1..]).delivered, i);
      }
    }
  }

  // ---------- Reassembly ----------

  /** The slots named by the blocks for piece `i`, in the order in which they arrive. */
  function Slots(max: nat, i: nat, inputs: seq<Input>): seq<nat>
    requires max > 0
  {
    if inputs == [] then []
    else (if IsBlockOf(inputs[0].m, i) then [inputs[0].m.begin / max] else []) + Slots(max, i, inputs[1..])
  }

  /** All blocks for piece `i` are true blocks of one of its slots, and nobody else completes the piece meanwhile. */
  predicate Arrivals(e: Settings, i: nat, piece: bytes, inputs: seq<Input>)
    requires e.max > 0
  {
    forall j :: 0 <= j < |inputs| && IsBlockOf(inputs[j].m, i) ==>
      && inputs[j].m.begin / e.max < NumBlocks(e, i)
      && inputs[j].m.block == Block(piece, e.max, inputs[j].m.begin / e.max)
      && !inputs[j].ans.done
  }

  /** No other message closes the connection before `left` more blocks for piece `i` have arrived. */
  predicate OpenFor(e: Settings, st: PeerState, i: nat, inputs: seq<Input>, left: nat)
    requires e.max > 0
    decreases |inputs|
  {
    if left == 0 || inputs == [] then true
    else
      var o := Step(e, st, inputs[0].m, inputs[0].ans);
      if IsBlockOf(inputs[0].m, i) then OpenFor(e, o.state, i, inputs[1..], left - 1)
      else !o.closed && OpenFor(e, o.state, i, inputs[1..], left)
  }

  /** No slot occurs twice. */
  predicate AllDifferent(slots: seq<nat>) {
    forall j, k :: 0 <= j < k < |slots| ==> slots[j] != slots[k]
  }

  /** The piece has received the blocks of the slots `seen`, in this order. */
  predicate Received(e: Settings, i: nat, p: Piece, piece: bytes, seen: seq<nat>)
    requires e.max > 0
  {
    && p.index == i && p.numBlocks == |p.blocks| == NumBlocks(e, i)
    && p.currentBlocks == |seen|
    && (forall k :: k in seen ==> k < NumBlocks(e, i))
    && forall k :: 0 <= k < |p.blocks| ==> p.blocks[k] == if k in seen then Block(piece, e.max, k) else []
  }

  // ---------- A list of slots is complete iff none is repeated ----------

  function Elements(s: seq<nat>): set<nat> {
    set k | k in s
  }

  lemma {:induction false} ElementsCount(s: seq<nat>)
    ensures |Elements(s)| <= |s|
    ensures |Elements(s)| == |s| <==> AllDifferent(s)
  {
    hide AllDifferent, Elements;
    if s == [] {
      NoElements();
    } else {
      var n := |s| - 1;
      ElementsCount(s[..n]);
      ElementsLast(s[..n], s[n]);
      assert s[..n] + [s[n]] == s;
    }
  }

  lemma {:induction false} NoElements()
    ensures Elements([]) == {} && AllDifferent([])
  {
  }

  lemma {:induction false} ElementsLast(s: seq<nat>, k: nat)
    ensures |Elements(s + [k])| == |Elements(s)| + if k in s then 0 else 1
    ensures AllDifferent(s + [k]) <==> AllDifferent(s) && k !in s
  {
    assert Elements(s + [k]) == Elements(s) + {k};
    if k in s {
      assert Elements(s) + {k} == Elements(s);
      var j :| 0 <= j < |s| && s[j] == k;
      assert (s + [k])[j] == (s + [k])[|s|];
    }
    assert forall j :: 0 <= j < |s| ==> (s + [k])[j] == s[j];
  }

  /** As many slots as there are: all of them occur iff none occurs twice. */
  lemma {:induction false} AllOccur(s: seq<nat>)
    requires forall k :: k in s ==> k < |s|
    ensures AllDifferent(s) <==> forall k: nat :: k < |s| ==> k in s
  {
    ElementsCount(s);
    hide AllDifferent;
    var all := Below(|s|);
    assert Elements(s) <= all;
    if AllDifferent(s) {
      SubsetOfSameSize(Elements(s), all);
      forall k: nat | k < |s|
        ensures k in s
      {
        assert k in all;
        assert k in Elements(s);
      }
    }
    if forall k: nat :: k < |s| ==> k in s {
      assert forall k :: k in all ==> k in Elements(s);
      assert Elements(s) == all;
    }
  }

  lemma {:induction false} SubsetOfSameSize(s: set<nat>, t: set<nat>)
    requires s <= t && |s| == |t|
    ensures s == t
  {
    assert t == s + (t - s);
    assert |t| == |s| + |t - s|;
  }

  // ---------- One arrival ----------

  lemma {:induction false} SlotsLength(e: Settings, i: nat, piece: bytes, k: nat)
    requires Valid(e) && i < e.totalPieces && |piece| == e.pieceSize(i) && k < NumBlocks(e, i)
    ensures 0 < |Block(piece, e.max, k)| <= e.max
  {
    BlockShape(piece, e.max, k);
  }

  lemma {:induction false} StoreReceived(e: Settings, i: nat, p: Piece, piece: bytes, seen: seq<nat>, k: nat)
    requires e.max > 0 && Received(e, i, p, piece, seen) && k < NumBlocks(e, i)
    ensures Received(e, i, Store(p, k, Block(piece, e.max, k)), piece, seen + [k])
  {
    hide Block, NumBlocks;
  }

  // Once as many blocks have arrived as there are slots, the blocks are the piece iff no slot came twice.
  lemma {:induction false} ReceivedAll(e: Settings, i: nat, p: Piece, piece: bytes, seen: seq<nat>)
    requires Valid(e) && i < e.totalPieces && |piece| == e.pieceSize(i)
    requires Received(e, i, p, piece, seen) && |seen| == NumBlocks(e, i)
    ensures Flatten(p.blocks) == piece <==> AllDifferent(seen)
  {
    GenuineDelivery(e, i, piece, p.blocks);
    AllOccur(seen);
    forall k | 0 <= k < |p.blocks|
      ensures p.blocks[k] != [] <==> k in seen
    {
      SlotsLength(e, i, piece, k);
    }
    hide Flatten, AllDifferent, Block, NumBlocks;
    assert (forall k :: 0 <= k < |p.blocks| ==> p.blocks[k] != []) <==> forall k: nat :: k < |seen| ==> k in seen;
  }

  lemma {:induction false} TakeArrival(e: Settings, st: PeerState, i: nat, k: nat, piece: bytes, seen: seq<nat>, ans: Answers)
    requires Valid(e) && i < e.totalPieces && |piece| == e.pieceSize(i) && !ans.done
    requires First(st.queue, i).Some? && Received(e, i, First(st.queue, i).value, piece, seen)
    requires k < NumBlocks(e, i)
    ensures var o := TakeBlock(e, st, FindPiece(st.queue, i), k, Block(piece, e.max, k), ans);
            && !o.closed
            && if |seen| + 1 == NumBlocks(e, i) then
                 var ds := Delivered(o.delivered, i);
                 |ds| == 1 && (ds[0] == piece <==> AllDifferent(seen + [k]))
               else
                 && Delivered(o.delivered, i) == []
                 && First(o.state.queue, i).Some? && Received(e, i, First(o.state.queue, i).value, piece, seen + [k])
  {
    var q := FindPiece(st.queue, i);
    var p := st.queue[q];
    var p' := Store(p, k, Block(piece, e.max, k));
    StoreReceived(e, i, p, piece, seen, k);
    hide RequestNext, Without, Block, Flatten, Delivered, CancelPiece, NumBlocks, AllDifferent;
    OneDelivery(Delivery(i, Flatten(p'.blocks)), i);
    if |seen| + 1 == NumBlocks(e, i) {
      ReceivedAll(e, i, p', piece, seen + [k]);
      RequestNextDelivers(e, st.(queue := Without(st.queue, q)), ans.next);
    } else {
      FindUnique(st.queue[q := p'], i, q);
    }
  }

  // A true block passes the size checks of the handler.
  lemma {:induction false} BlockStep(e: Settings, st: PeerState, i: nat, m: Message, piece: bytes, ans: Answers) returns (k: nat)
    requires Valid(e) && i < e.totalPieces && |piece| == e.pieceSize(i) && First(st.queue, i).Some?
    requires IsBlockOf(m, i) && m.begin / e.max < NumBlocks(e, i) && m.block == Block(piece, e.max, m.begin / e.max)
    ensures FindPiece(st.queue, i) < |st.queue|
    ensures k == m.begin / e.max
    ensures Step(e, st, m, ans) == TakeBlock(e, st, FindPiece(st.queue, i), k, Block(piece, e.max, k), ans)
  {
    k := m.begin / e.max;
    SlotsLength(e, i, piece, k);
    hide TakeBlock, Block, NumBlocks, RequestNext, RequestAll, BitfieldSet, FindRequested, Valid;
  }

  // The step of the handler for a true block.
  lemma {:induction false} Arrival(e: Settings, st: PeerState, i: nat, m: Message, piece: bytes, seen: seq<nat>, ans: Answers)
    requires Valid(e) && i < e.totalPieces && |piece| == e.pieceSize(i) && !ans.done
    requires First(st.queue, i).Some? && Received(e, i, First(st.queue, i).value, piece, seen)
    requires IsBlockOf(m, i) && m.begin / e.max < NumBlocks(e, i) && m.block == Block(piece, e.max, m.begin / e.max)
    ensures var o, k := Step(e, st, m, ans), m.begin / e.max;
            && !o.closed
            && if |seen| + 1 == NumBlocks(e, i) then
                 var ds := Delivered(o.delivered, i);
                 |ds| == 1 && (ds[0] == piece <==> AllDifferent(seen + [k]))
               else
                 && Delivered(o.delivered, i) == []
                 && First(o.state.queue, i).Some? && Received(e, i, First(o.state.queue, i).value, piece, seen + [k])
  {
    hide *;
    MaxPositive(e);
    var k := BlockStep(e, st, i, m, piece, ans);
    TakeArrival(e, st, i, k, piece, seen, ans);
  }

  // After the last block of piece i nothing more is handed over for it.
  lemma {:induction false} NoMoreBlocks(e: Settings, st: PeerState, i: nat, inputs: seq<Input>)
    requires e.max > 0 && Slots(e.max, i, inputs) == []
    ensures Delivered(Run(e, st, inputs).delivered, i) == []
    decreases |inputs|
  {
    hide Step, Delivered;
    OneDelivery(Delivery(0, []), i);
    if inputs == [] {
    } else {
      var o := Step(e, st, inputs[0].m, inputs[0].ans);
      StepDeliversOwn(e, st, inputs[0].m, inputs[0].ans, i);
      RunDelivers(e, st, i, inputs);
      if !o.closed {
        NoMoreBlocks(e, o.state, i, inputs[1..]);
      }
    }
  }

  lemma {:induction false} MaxPositive(e: Settings)
    requires Valid(e)
    ensures e.max > 0
  {
  }

  // ---------- All arrivals ----------

  /** What is handed over for a piece of `n` slots when blocks of these slots arrive. */
  predicate HandedOver(ds: seq<bytes>, piece: bytes, slots: seq<nat>, n: nat) {
    if |slots| < n then ds == []
    else
      && ds != [] && (|slots| == n ==> |ds| == 1)
      && (ds[0] == piece <==> AllDifferent(slots[..n]))
  }

  /**
   Reassembly from any point: whatever true blocks of a piece arrive, in whatever order, however
   often and among whatever other traffic, nothing is handed over before as many have arrived as
   the piece has slots; then it is handed over, and it is the true piece iff no slot came twice.
   */
  lemma {:induction false} ReassemblyFrom(e: Settings, st: PeerState, i: nat, piece: bytes, inputs: seq<Input>, seen: seq<nat>)
    requires Valid(e) && i < e.totalPieces && |piece| == e.pieceSize(i)
    requires First(st.queue, i).Some? && Received(e, i, First(st.queue, i).value, piece, seen)
    requires |seen| < NumBlocks(e, i) && Arrivals(e, i, piece, inputs)
    requires OpenFor(e, st, i, inputs, NumBlocks(e, i) - |seen|)
    ensures HandedOver(Delivered(Run(e, st, inputs).delivered, i), piece, seen + Slots(e.max, i, inputs), NumBlocks(e, i))
    decreases |inputs|
  {
    hide *;
    MaxPositive(e);
    if inputs == [] {
      NoInputs(e, st, i);
      NothingYet(piece, seen, NumBlocks(e, i));
    } else if IsBlockOf(inputs[0].m, i) && |seen| + 1 == NumBlocks(e, i) {
      LastArrival(e, st, i, piece, inputs, seen);
    } else {
      var seen' := FirstInput(e, st, i, piece, inputs, seen);
      ReassemblyFrom(e, Step(e, st, inputs[0].m, inputs[0].ans).state, i, piece, inputs[1..], seen');
    }
  }

  // The first input is the block that completes the count.
  lemma {:induction false} LastArrival(e: Settings, st: PeerState, i: nat, piece: bytes, inputs: seq<Input>, seen: seq<nat>)
    requires Valid(e) && i < e.totalPieces && |piece| == e.pieceSize(i) && inputs != []
    requires First(st.queue, i).Some? && Received(e, i, First(st.queue, i).value, piece, seen)
    requires |seen| + 1 == NumBlocks(e, i) && Arrivals(e, i, piece, inputs) && OpenFor(e, st, i, inputs, 1)
    requires IsBlockOf(inputs[0].m, i)
    ensures HandedOver(Delivered(Run(e, st, inputs).delivered, i), piece, seen + Slots(e.max, i, inputs), NumBlocks(e, i))
  {
    hide *;
    MaxPositive(e);
    var o, rest := Step(e, st, inputs[0].m, inputs[0].ans), inputs[1..];
    InputsUnfold(e, st, i, piece, inputs, 1);
    Arrival(e, st, i, inputs[0].m, piece, seen, inputs[0].ans);
    RunDelivers(e, st, i, inputs);
    if Slots(e.max, i, rest) == [] {
      NoMoreBlocks(e, o.state, i, rest);
    }
    HandsOver(Delivered(o.delivered, i), Delivered(Run(e, o.state, rest).delivered, i), piece,
              seen, inputs[0].m.begin / e.max, Slots(e.max, i, rest));
  }

  // The first input is another one: a block that leaves the count incomplete, or no block of the piece.
  lemma {:induction false} FirstInput(e: Settings, st: PeerState, i: nat, piece: bytes, inputs: seq<Input>, seen: seq<nat>) returns (seen': seq<nat>)
    requires Valid(e) && i < e.totalPieces && |piece| == e.pieceSize(i) && inputs != []
    requires First(st.queue, i).Some? && Received(e, i, First(st.queue, i).value, piece, seen)
    requires |seen| < NumBlocks(e, i) && Arrivals(e, i, piece, inputs)
    requires OpenFor(e, st, i, inputs, NumBlocks(e, i) - |seen|)
    requires IsBlockOf(inputs[0].m, i) ==> |seen| + 1 < NumBlocks(e, i)
    ensures var o := Step(e, st, inputs[0].m, inputs[0].ans);
            && First(o.state.queue, i).Some? && Received(e, i, First(o.state.queue, i).value, piece, seen')
            && |seen'| < NumBlocks(e, i) && Arrivals(e, i, piece, inputs[1..])
            && OpenFor(e, o.state, i, inputs[1..], NumBlocks(e, i) - |seen'|)
            && Delivered(Run(e, st, inputs).delivered, i) == Delivered(Run(e, o.state, inputs[1..]).delivered, i)
    ensures seen' + Slots(e.max, i, inputs[1..]) == seen + Slots(e.max, i, inputs)
  {
    hide *;
    MaxPositive(e);
    InputsUnfold(e, st, i, piece, inputs, NumBlocks(e, i) - |seen|);
    RunDelivers(e, st, i, inputs);
    if IsBlockOf(inputs[0].m, i) {
      Arrival(e, st, i, inputs[0].m, piece, seen, inputs[0].ans);
      seen' := seen + [inputs[0].m.begin / e.max];
      Regroup(seen, inputs[0].m.begin / e.max, Slots(e.max, i, inputs[1..]));
    } else {
      StepOther(e, st, inputs[0].m, inputs[0].ans, i);
      seen' := seen;
    }
  }

  lemma {:induction false} NothingYet(piece: bytes, seen: seq<nat>, n: nat)
    ensures |seen| < n ==> HandedOver([], piece, seen + [], n)
  {
  }

  lemma {:induction false} NoInputs(e: Settings, st: PeerState, i: nat)
    requires e.max > 0
    ensures Delivered(Run(e, st, []).delivered, i) == [] && Slots(e.max, i, []) == []
  {
  }

  // What a run hands over: what its first step does, and the rest if that leaves the connection open.
  lemma {:induction false} RunDelivers(e: Settings, st: PeerState, i: nat, inputs: seq<Input>)
    requires e.max > 0 && inputs != []
    ensures var o := Step(e, st, inputs[0].m, inputs[0].ans);
            var now, later := Delivered(o.delivered, i), Delivered(Run(e, o.state, inputs[1..]).delivered, i);
            && Delivered(Run(e, st, inputs).delivered, i) == now + (if o.closed then [] else later)
            && (now == [] && !o.closed ==> Delivered(Run(e, st, inputs).delivered, i) == later)
  {
    hide Step, Delivered;
    var o := Step(e, st, inputs[0].m, inputs[0].ans);
    if !o.closed {
      DeliveredConcat(o.delivered, Run(e, o.state, inputs[1..]).delivered, i);
    }
  }

  // The first input and the others.
  lemma {:induction false} InputsUnfold(e: Settings, st: PeerState, i: nat, piece: bytes, inputs: seq<Input>, left: nat)
    requires e.max > 0 && inputs != [] && left > 0
    requires Arrivals(e, i, piece, inputs) && OpenFor(e, st, i, inputs, left)
    ensures var m, o := inputs[0].m, Step(e, st, inputs[0].m, inputs[0].ans);
            && Arrivals(e, i, piece, inputs[1..])
            && if IsBlockOf(m, i) then
                 && m.PieceBlock?
                 && var k := m.begin / e.max;
                 && k < NumBlocks(e, i) && m.block == Block(piece, e.max, k) && !inputs[0].ans.done
                 && OpenFor(e, o.state, i, inputs[1..], left - 1)
                 && Slots(e.max, i, inputs) == [k] + Slots(e.max, i, inputs[1..])
               else
                 && !o.closed && OpenFor(e, o.state, i, inputs[1..], left)
                 && Slots(e.max, i, inputs) == Slots(e.max, i, inputs[1..])
  {
    hide Step, Block, NumBlocks;
    assert [] + Slots(e.max, i, inputs[1..]) == Slots(e.max, i, inputs[1..]);
    assert forall j :: 0 <= j < |inputs| - 1 ==> inputs[1..][j] == inputs[j + 1];
  }

  lemma {:induction false} Regroup(seen: seq<nat>, k: nat, later: seq<nat>)
    ensures seen + ([k] + later) == seen + [k] + later
  {
  }

  // The arrival that completes the count.
  lemma {:induction false} HandsOver(ds: seq<bytes>, more: seq<bytes>, piece: bytes, seen: seq<nat>, k: nat, later: seq<nat>)
    requires |ds| == 1 && (ds[0] == piece <==> AllDifferent(seen + [k]))
    requires later == [] ==> more == []
    ensures HandedOver(ds + more, piece, seen + ([k] + later), |seen| + 1)
  {
    Regroup(seen, k, later);
    assert (seen + ([k] + later))[..|seen| + 1] == seen + [k];
    hide AllDifferent;
  }

  /**
   The download of one piece: of a newly queued piece, as many true blocks arrive as it has
   slots, in any order and among any other messages. Then the piece is handed over exactly once,
   and what is handed over is the true piece if and only if no block was a repetition.
   */
  lemma {:induction false} Reassembly(e: Settings, st: PeerState, i: nat, piece: bytes, inputs: seq<Input>)
    requires Valid(e) && i < e.totalPieces && |piece| == e.pieceSize(i)
    requires First(st.queue, i) == Some(NewPiece(e, i))
    requires Arrivals(e, i, piece, inputs) && |Slots(e.max, i, inputs)| == NumBlocks(e, i)
    requires OpenFor(e, st, i, inputs, NumBlocks(e, i))
    ensures |Delivered(Run(e, st, inputs).delivered, i)| == 1
    ensures Delivered(Run(e, st, inputs).delivered, i) == [piece] <==> AllDifferent(Slots(e.max, i, inputs))
  {
    NewPieceReceived(e, i, piece);
    hide Run, Arrivals, OpenFor, Delivered, First, Received, NewPiece, NumBlocks, AllDifferent;
    ReassemblyFrom(e, st, i, piece, inputs, []);
    var slots := Slots(e.max, i, inputs);
    assert [] + slots == slots && slots[..|slots|] == slots;
  }

  // A newly queued piece has received nothing.
  lemma {:induction false} NewPieceReceived(e: Settings, i: nat, piece: bytes)
    requires Valid(e) && i < e.totalPieces
    ensures Received(e, i, NewPiece(e, i), piece, []) && NumBlocks(e, i) > 0
  {
    CeilDivBounds(e.pieceSize(i), e.max);
  }

  /**
   A repeated block does lose a piece: of a piece of two blocks, the first one sent twice
   completes the count, and the first block alone is handed over.
   */
  lemma {:induction false} RepeatedBlockLosesPiece(e: Settings, st: PeerState, i: uint32, piece: bytes, ans: Answers)
    requires Valid(e) && i < e.totalPieces && |piece| == e.pieceSize(i)
    requires e.max < |piece| <= 2 * e.max && !ans.done
    requires st.queue == [NewPiece(e, i)]
    ensures var first := PieceBlock(i, 0, piece[..e.max]);
            Delivered(Run(e, st, [Input(first, ans), Input(first, ans)]).delivered, i) == [piece[..e.max]]
  {
    var block := piece[..e.max];
    var input := Input(PieceBlock(i, 0, block), ans);
    var once := Piece(i, 1, 2, [block, []]);
    TwoBlocks(e, i);
    FlattenTwo(block, []);
    assert block + [] == block;
    FirstOfTwo(e, st, i, block, ans);
    var st1 := st.(queue := [once]);
    SecondOfTwo(e, st1, i, block, ans);
    hide NewPiece, Delivered, Step;
    OneDelivery(Delivery(i, block), i);
    assert [input, input][1..] == [input] && [input][1..] == [];
    assert Run(e, st1, [input]).delivered == [Delivery(i, block)];
  }

  lemma {:induction false} FirstOfTwo(e: Settings, st: PeerState, i: uint32, block: bytes, ans: Answers)
    requires e.max > 0 && !ans.done && 0 < |block| <= e.max && st.queue == [Piece(i, 0, 2, [[], []])]
    ensures Step(e, st, PieceBlock(i, 0, block), ans) == Stay(st.(queue := [Piece(i, 1, 2, [block, []])]), [])
  {
    hide RequestNext;
    assert Store(Piece(i, 0, 2, [[], []]), 0, block) == Piece(i, 1, 2, [block, []]);
  }

  lemma {:induction false} SecondOfTwo(e: Settings, st: PeerState, i: uint32, block: bytes, ans: Answers)
    requires e.max > 0 && !ans.done && 0 < |block| <= e.max && st.queue == [Piece(i, 1, 2, [block, []])]
    ensures var o := Step(e, st, PieceBlock(i, 0, block), ans);
            o.delivered == [Delivery(i, Flatten([block, []]))] && !o.closed
  {
    RequestNextDelivers(e, st.(queue := Without(st.queue, 0)), ans.next);
    hide RequestNext, Flatten;
    assert Store(Piece(i, 1, 2, [block, []]), 0, block) == Piece(i, 2, 2, [block, []]);
  }

  lemma {:induction false} FlattenTwo(a: bytes, b: bytes)
    ensures Flatten([a, b]) == a + b
  {
    var one := [a];
    assert [a, b][..1] == one;
    assert Flatten(one[..0]) == [];
  }

  lemma {:induction false} TwoBlocks(e: Settings, i: nat)
    requires Valid(e) && i < e.totalPieces && e.max < e.pieceSize(i) <= 2 * e.max
    ensures NumBlocks(e, i) == 2 && NoBlocks(2) == [[], []]
  {
    CeilUnique(e.pieceSize(i), e.max, 2);
  }
}
