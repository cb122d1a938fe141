/**
 What the handler of ctorrent/peer.cpp does, message by message, in terms of the messages on the
 wire and the blocks they name: what each message is answered with, which pieces a bitfield
 stands for, what a finished block leads to, and what a peer is known to have said.
 */
module PeerMeaning {
  import opened Bytes
  import opened Wrappers
  import opened Wire
  import opened Tiling
  import opened Pieces
  import opened PeerProtocol

  // ---------- Bitfields ----------

  function Weight(s: set<nat>, i: nat, w: nat): nat {
    if i in s then w else 0
  }

  /** Eight pieces in one byte: the first is the most significant bit. */
  function PackByte(s: set<nat>, i: nat): byte {
    Weight(s, 8 * i, 128) + Weight(s, 8 * i + 1, 64) + Weight(s, 8 * i + 2, 32) + Weight(s, 8 * i + 3, 16)
    + Weight(s, 8 * i + 4, 8) + Weight(s, 8 * i + 5, 4) + Weight(s, 8 * i + 6, 2) + Weight(s, 8 * i + 7, 1)
  }

  /** A set of pieces as the `n` bytes of a bitfield (BEP 3, section "peer messages"). */
  function Pack(s: set<nat>, n: nat): (r: bytes)
    ensures |r| == n
  {
    seq(n, i requires 0 <= i < n => PackByte(s, i))
  }

  function DigitAt(v: nat, w: nat): nat
    requires w > 0
  {
    v / w % 2
  }

  // The binary digits of a byte are determined by their sum.
  lemma {:induction false} Binary(b7: nat, b6: nat, b5: nat, b4: nat, b3: nat, b2: nat, b1: nat, b0: nat)
    requires b7 <= 1 && b6 <= 1 && b5 <= 1 && b4 <= 1 && b3 <= 1 && b2 <= 1 && b1 <= 1 && b0 <= 1
    ensures var v := 128 * b7 + 64 * b6 + 32 * b5 + 16 * b4 + 8 * b3 + 4 * b2 + 2 * b1 + b0;
            && DigitAt(v, 128) == b7 && DigitAt(v, 64) == b6 && DigitAt(v, 32) == b5 && DigitAt(v, 16) == b4
            && DigitAt(v, 8) == b3 && DigitAt(v, 4) == b2 && DigitAt(v, 2) == b1 && DigitAt(v, 1) == b0
  {
    hide *;
    var r1 := 2 * b1 + b0;
    var r2 := 4 * b2 + r1;
    var r3 := 8 * b3 + r2;
    var r4 := 16 * b4 + r3;
    var r5 := 32 * b5 + r4;
    var r6 := 64 * b6 + r5;
    BinaryDigit(0, b7, 128, r6);
    BinaryDigit(b7, b6, 64, r5);
    BinaryDigit(2 * b7 + b6, b5, 32, r4);
    BinaryDigit(4 * b7 + 2 * b6 + b5, b4, 16, r3);
    BinaryDigit(8 * b7 + 4 * b6 + 2 * b5 + b4, b3, 8, r2);
    BinaryDigit(16 * b7 + 8 * b6 + 4 * b5 + 2 * b4 + b3, b2, 4, r1);
    BinaryDigit(32 * b7 + 16 * b6 + 8 * b5 + 4 * b4 + 2 * b3 + b2, b1, 2, b0);
    BinaryDigit(64 * b7 + 32 * b6 + 16 * b5 + 8 * b4 + 4 * b3 + 2 * b2 + b1, b0, 1, 0);
  }

  lemma {:induction false} BinaryDigit(high: nat, b: nat, w: nat, low: nat)
    requires b <= 1 && low < w
    ensures DigitAt((2 * high + b) * w + low, w) == b
  {
    MultiplePlusMod(2 * high + b, w, low);
  }

  lemma {:induction false} Powers()
    ensures Pow2(0) == 1 && Pow2(1) == 2 && Pow2(2) == 4 && Pow2(3) == 8
    ensures Pow2(4) == 16 && Pow2(5) == 32 && Pow2(6) == 64 && Pow2(7) == 128
  {
  }

  lemma {:induction false} PackedByte(s: set<nat>, k: nat, x: nat)
    requires x < 8
    ensures DigitAt(PackByte(s, k), Pow2(7 - x)) == 1 <==> 8 * k + x in s
  {
    Powers();
    hide Pow2, DigitAt;
    Binary(Weight(s, 8 * k, 1), Weight(s, 8 * k + 1, 1), Weight(s, 8 * k + 2, 1), Weight(s, 8 * k + 3, 1),
           Weight(s, 8 * k + 4, 1), Weight(s, 8 * k + 5, 1), Weight(s, 8 * k + 6, 1), Weight(s, 8 * k + 7, 1));
  }

  lemma {:induction false} PackedBit(s: set<nat>, n: nat, i: nat)
    requires i < 8 * n
    ensures BitAt(Pack(s, n), i) <==> i in s
  {
    hide PackByte, Pow2;
    PackedByte(s, i / 8, i % 8);
  }

  /** A packed bitfield announces exactly the pieces packed. */
  lemma {:induction false} BitfieldOfPack(e: Settings, s: set<nat>, n: nat)
    requires forall i :: i in s ==> i < e.totalPieces && i < 8 * n
    ensures BitfieldSet(e, Pack(s, n)) == s
  {
    hide BitAt, Pack;
    forall i: nat | i < e.totalPieces
      ensures BitAt(Pack(s, n), i) <==> i in s
    {
      if i < 8 * n {
        PackedBit(s, n, i);
      } else {
        NoBit(Pack(s, n), i);
      }
    }
  }

  lemma {:induction false} NoBit(bits: bytes, i: nat)
    requires i >= 8 * |bits|
    ensures !BitAt(bits, i)
  {
  }

  // ---------- Requests and cancels ----------

  /** The bytes of block `k` of `n` blocks of a piece of `size` bytes: all but the last are `max` long. */
  function BlockLength(size: nat, max: nat, n: nat, k: nat): int {
    if k == n - 1 then size - k * max else max
  }

  /** `msgs` asks for every block of piece `i`, once each and in order. */
  predicate AsksFor(e: Settings, i: nat, msgs: seq<Message>)
    requires e.max > 0
  {
    && |msgs| == CeilDiv(e.pieceSize(i), e.max)
    && forall k :: 0 <= k < |msgs| ==>
         && msgs[k].Request? && msgs[k].index == i
         && msgs[k].begin == k * e.max && msgs[k].length == BlockLength(e.pieceSize(i), e.max, |msgs|, k)
  }

  /** `msgs` takes the request for every block of piece `i` back. */
  predicate TakesBack(e: Settings, i: nat, msgs: seq<Message>)
    requires e.max > 0
  {
    && |msgs| == CeilDiv(e.pieceSize(i), e.max)
    && forall k :: 0 <= k < |msgs| ==>
         && msgs[k].Cancel? && msgs[k].index == i
         && msgs[k].begin == k * e.max && msgs[k].length == BlockLength(e.pieceSize(i), e.max, |msgs|, k)
  }

  lemma {:induction false} TileLength(size: nat, max: nat, k: nat)
    requires max > 0 && size > 0 && k < CeilDiv(size, max)
    ensures k < |Tiles(size, max)| && Tiles(size, max)[k] == Tile(k * max, BlockLength(size, max, CeilDiv(size, max), k))
  {
    TilesFromShape(0, size, max);
    CeilDivBounds(size, max);
    hide CeilDiv, TilesFrom;
    var n := CeilDiv(size, max);
    if k < n - 1 {
      MulStep(k, max);
      MulMonotone(k + 1, n - 1, max);
    } else {
      MulStep(n - 1, max);
    }
  }

  lemma {:induction false} RequestOfBlock(e: Settings, i: nat, k: nat)
    requires PeerProtocol.Valid(e) && i < e.totalPieces && k < CeilDiv(e.pieceSize(i), e.max)
    ensures |RequestPiece(e, i)| == |CancelPiece(e, i)| == CeilDiv(e.pieceSize(i), e.max)
    ensures var length := BlockLength(e.pieceSize(i), e.max, CeilDiv(e.pieceSize(i), e.max), k);
            && 0 <= k * e.max < TWO32 && 0 <= length < TWO32 && i < TWO32
            && RequestPiece(e, i)[k] == Request(i, k * e.max, length)
            && CancelPiece(e, i)[k] == Cancel(i, k * e.max, length)
  {
    var size := e.pieceSize(i);
    TilesShape(size, e.max);
    TileLength(size, e.max, k);
    hide CeilDiv, Tiles, AsRequests, AsCancels, BlockLength;
    MessageAt(i, Tiles(size, e.max), k);
  }

  lemma {:induction false} RequestCounts(e: Settings, i: nat)
    requires PeerProtocol.Valid(e) && i < e.totalPieces
    ensures e.max > 0
    ensures |RequestPiece(e, i)| == |CancelPiece(e, i)| == CeilDiv(e.pieceSize(i), e.max)
  {
    TilesShape(e.pieceSize(i), e.max);
    hide CeilDiv, Tiles;
  }

  /** `requestPiece` asks for all blocks of a piece, and `cancelPiece` takes exactly these requests back. */
  lemma {:induction false} RequestsAsk(e: Settings, i: nat)
    requires PeerProtocol.Valid(e) && i < e.totalPieces
    ensures AsksFor(e, i, RequestPiece(e, i)) && TakesBack(e, i, CancelPiece(e, i))
  {
    RequestCounts(e, i);
    hide CeilDiv, PeerProtocol.Valid, RequestPiece, CancelPiece, BlockLength;
    forall k | 0 <= k < CeilDiv(e.pieceSize(i), e.max)
      ensures var length := BlockLength(e.pieceSize(i), e.max, CeilDiv(e.pieceSize(i), e.max), k);
              && 0 <= k * e.max < TWO32 && 0 <= length < TWO32 && i < TWO32
              && RequestPiece(e, i)[k] == Request(i, k * e.max, length)
              && CancelPiece(e, i)[k] == Cancel(i, k * e.max, length)
    {
      RequestOfBlock(e, i, k);
    }
  }

  /** `msgs` asks for every block of every queued piece, piece after piece. */
  predicate AsksForAll(e: Settings, queue: seq<Piece>, msgs: seq<Message>)
    requires e.max > 0
    decreases |queue|
  {
    if queue == [] then msgs == []
    else
      var n := CeilDiv(e.pieceSize(queue[0].index), e.max);
      n <= |msgs| && AsksFor(e, queue[0].index, msgs[..n]) && AsksForAll(e, queue[1..], msgs[n..])
  }

  lemma {:induction false} RequestAllFront(e: Settings, queue: seq<Piece>)
    requires e.max > 0 && queue != []
    ensures RequestAll(e, queue) == RequestPiece(e, queue[0].index) + RequestAll(e, queue[1..])
    decreases |queue|
  {
    hide RequestPiece;
    var n := |queue| - 1;
    if n == 0 {
      assert queue[..0] == [] && queue[1..] == [];
    } else {
      RequestAllFront(e, queue[..n]);
      assert queue[..n][1..] == queue[1..][..n - 1] && queue[1..][n - 1] == queue[n];
    }
  }

  lemma {:induction false} AllAsk(e: Settings, queue: seq<Piece>)
    requires PeerProtocol.Valid(e) && forall k :: 0 <= k < |queue| ==> queue[k].index < e.totalPieces
    ensures e.max > 0 && AsksForAll(e, queue, RequestAll(e, queue))
    decreases |queue|
  {
    hide RequestPiece, AsksFor, CeilDiv;
    if queue != [] {
      var i := queue[0].index;
      RequestAllFront(e, queue);
      RequestsAsk(e, i);
      AllAsk(e, queue[1..]);
      var first, rest := RequestPiece(e, i), RequestAll(e, queue[1..]);
      AskedLength(e, i, first);
      assert (first + rest)[..|first|] == first && (first + rest)[|first|..] == rest;
    }
  }

  lemma {:induction false} AskedLength(e: Settings, i: nat, msgs: seq<Message>)
    requires e.max > 0 && AsksFor(e, i, msgs)
    ensures |msgs| == CeilDiv(e.pieceSize(i), e.max)
  {
  }

  // ---------- Handing out a piece ----------

  /** Piece `i` with none of its blocks arrived. */
  predicate Untouched(e: Settings, i: nat, p: Piece)
    requires e.max > 0
  {
    && p.index == i && p.currentBlocks == 0
    && p.numBlocks == |p.blocks| == CeilDiv(e.pieceSize(i), e.max)
    && forall k :: 0 <= k < |p.blocks| ==> p.blocks[k] == []
  }

  /** From `st` on, nothing is requested if there is no next piece; else we are interested, it is queued, and asked for unless we are choked. */
  predicate Requests(e: Settings, st: PeerState, next: Option<nat>, t: PeerState, sent: seq<Message>)
    requires e.max > 0
  {
    match next
    case None => t == st && sent == []
    case Some(i) =>
      && |t.queue| == |st.queue| + 1 && Untouched(e, i, t.queue[|st.queue|])
      && t == st.(amInterested := true, queue := st.queue + [t.queue[|st.queue|]])
      && sent != [] && sent[0] == Interested
      && if st.peerChoked then |sent| == 1 else AsksFor(e, i, sent[1..])
  }

  lemma {:induction false} NewPieceUntouched(e: Settings, i: nat)
    requires PeerProtocol.Valid(e) && i < e.totalPieces
    ensures Untouched(e, i, NewPiece(e, i))
  {
    hide CeilDiv;
  }

  /** `Torrent::requestPiece` and `sendPieceRequest`. */
  lemma {:induction false} RequestNextIs(e: Settings, st: PeerState, next: Option<nat>)
    requires PeerProtocol.Valid(e) && (next.Some? ==> next.value < e.totalPieces)
    ensures var o := RequestNext(e, st, next);
            e.max > 0 && Requests(e, st, next, o.state, o.sent) && o.delivered == [] && !o.closed
  {
    if next.Some? {
      var i := next.value;
      NewPieceUntouched(e, i);
      RequestsAsk(e, i);
      hide RequestPiece, NewPiece, AsksFor, Untouched;
      assert ([Interested] + RequestPiece(e, i))[1..] == RequestPiece(e, i);
    }
  }

  // ---------- Blocks ----------

  /** Position `q` is that of the first queued piece with index `i`. */
  predicate QueuedAt(queue: seq<Piece>, i: nat, q: nat) {
    q < |queue| && queue[q].index == i && forall j :: 0 <= j < q ==> queue[j].index != i
  }

  /** A block of allowed size with a place `slot` in the piece with index `i`, of which the first in the queue is at `q`. */
  predicate Fits(e: Settings, queue: seq<Piece>, i: nat, b: nat, block: bytes, q: nat, slot: nat)
    requires e.max > 0
  {
    && QueuedAt(queue, i, q) && block != [] && |block| <= e.max
    && slot == b / e.max && slot < CeilDiv(e.pieceSize(i), e.max)
  }

  /** A block that fits no queued piece closes the connection and changes nothing. */
  lemma {:induction false} BlockCloses(e: Settings, st: PeerState, i: uint32, b: uint32, block: bytes, ans: Answers)
    requires PeerProtocol.Valid(e) && QueueOk(e, st.queue)
    ensures var o := Step(e, st, PieceBlock(i, b, block), ans);
            && (o.closed <==>
                  || block == [] || |block| > e.max || (forall k :: 0 <= k < |st.queue| ==> st.queue[k].index != i)
                  || b / e.max >= CeilDiv(e.pieceSize(i), e.max))
            && (o.closed ==> o.state == st && o.sent == [] && o.delivered == [])
  {
    hide CeilDiv, RequestNext, CancelPiece, Flatten, Without, FindPiece;
    var q := FindPiece(st.queue, i);
    if q < |st.queue| {
      assert PieceOk(e, st.queue[q]);
      hide PieceOk, QueueOk;
      RequestNextDelivers(e, st.(queue := Without(st.queue, q)), ans.next);
    }
  }

  // A block that fits goes to the piece and the slot it is for.
  lemma {:induction false} StepTakes(e: Settings, st: PeerState, i: uint32, b: uint32, block: bytes, ans: Answers, q: nat, slot: nat)
    requires PeerProtocol.Valid(e) && QueueOk(e, st.queue) && Fits(e, st.queue, i, b, block, q, slot)
    ensures PieceOk(e, st.queue[q]) && slot < |st.queue[q].blocks| == st.queue[q].numBlocks
    ensures Step(e, st, PieceBlock(i, b, block), ans) == TakeBlock(e, st, q, slot, block, ans)
  {
    hide CeilDiv, RequestNext, CancelPiece, Flatten, FindPiece, TakeBlock;
    FindUnique(st.queue, i, q);
    assert PieceOk(e, st.queue[q]);
    assert U32(e.pieceSize(i)) == e.pieceSize(i);
  }

  /** A block for a piece that is completed already: the piece is dropped and its requests are taken back. */
  lemma {:induction false} BlockOfDone(e: Settings, st: PeerState, i: uint32, b: uint32, block: bytes, ans: Answers, q: nat, slot: nat)
    requires PeerProtocol.Valid(e) && QueueOk(e, st.queue) && Fits(e, st.queue, i, b, block, q, slot) && ans.done
    ensures var o := Step(e, st, PieceBlock(i, b, block), ans);
            && o.state == st.(queue := st.queue[..q] + st.queue[q + 1..])
            && TakesBack(e, i, o.sent) && o.delivered == [] && !o.closed
  {
    StepTakes(e, st, i, b, block, ans, q, slot);
    assert PieceOk(e, st.queue[q]);
    RequestsAsk(e, i);
    hide Step, Finish, CancelPiece, FindPiece, QueueOk, PieceOk, TakesBack, CeilDiv;
  }

  /** A block that is not the last one counted is put into its place, and nothing else happens. */
  lemma {:induction false} BlockStored(e: Settings, st: PeerState, i: uint32, b: uint32, block: bytes, ans: Answers, q: nat, slot: nat)
    requires PeerProtocol.Valid(e) && QueueOk(e, st.queue) && Fits(e, st.queue, i, b, block, q, slot) && !ans.done
    requires st.queue[q].currentBlocks + 1 < st.queue[q].numBlocks
    ensures slot < |st.queue[q].blocks|
    ensures var o, p := Step(e, st, PieceBlock(i, b, block), ans), st.queue[q];
            && o.state == st.(queue := st.queue[q := Piece(i, p.currentBlocks + 1, p.numBlocks, p.blocks[slot := block])])
            && o.sent == [] && o.delivered == [] && !o.closed
  {
    StepTakes(e, st, i, b, block, ans, q, slot);
    hide Step, Finish, CancelPiece, FindPiece, QueueOk, PieceOk, CeilDiv;
  }

  /**
   The last block counted: the piece leaves the queue and its blocks are handed over in slot order.
   A refusal is answered with a choke; otherwise the next piece is requested unless the download
   is finished.
   */
  lemma {:induction false} BlockCompletes(e: Settings, st: PeerState, i: uint32, b: uint32, block: bytes, ans: Answers, q: nat, slot: nat)
    requires PeerProtocol.Valid(e) && QueueOk(e, st.queue) && AnswerOk(e, ans)
    requires Fits(e, st.queue, i, b, block, q, slot) && !ans.done
    requires st.queue[q].currentBlocks + 1 == st.queue[q].numBlocks
    ensures slot < |st.queue[q].blocks|
    ensures var o, p := Step(e, st, PieceBlock(i, b, block), ans), st.queue[q];
            var st' := st.(queue := st.queue[..q] + st.queue[q + 1..]);
            && o.delivered == [Delivery(i, Flatten(p.blocks[slot := block]))] && !o.closed
            && if !ans.writeAccepted then o.sent == [Choke] && o.state == st'.(amChoked := true)
               else if ans.finished then o.sent == [] && o.state == st'
               else Requests(e, st', ans.next, o.state, o.sent)
  {
    StepTakes(e, st, i, b, block, ans, q, slot);
    RequestNextIs(e, st.(queue := Without(st.queue, q)), ans.next);
    hide Step, RequestNext, CancelPiece, Flatten, FindPiece, QueueOk, PieceOk, Requests, CeilDiv;
  }

  // ---------- The other messages ----------

  /**
   What every other message is answered with. An interested peer is unchoked, an unchoking one is
   asked for all queued pieces, a bitfield is answered with a request unless the download is
   finished, a request that is not served with a choke; the rest is not answered.
   */
  lemma {:induction false} Replies(e: Settings, st: PeerState, m: Message, ans: Answers)
    requires PeerProtocol.Valid(e) && QueueOk(e, st.queue) && AnswerOk(e, ans) && !m.PieceBlock?
    ensures var o := Step(e, st, m, ans);
            && o.delivered == []
            && (o.closed <==> m.Request? && (!st.peerInterested || st.amChoked || m.length > e.max))
            && match m
               case UnChoke => AsksForAll(e, st.queue, o.sent)
               case Interested => o.sent == (if st.amChoked then [UnChoke] else []) && !o.state.amChoked
               case Bitfield(bits) =>
                 var st' := st.(has := o.state.has);
                 if ans.finished then o.sent == [] && o.state == st' else Requests(e, st', ans.next, o.state, o.sent)
               case Request(_, _, _) => o.sent == if o.closed || ans.readAccepted then [] else [Choke]
               case _ => o.sent == []
  {
    hide RequestNext, RequestAll, BitfieldSet, FindRequested, Without, Requests, AsksForAll;
    match m
    case UnChoke =>
      assert forall k :: 0 <= k < |st.queue| ==> PieceOk(e, st.queue[k]);
      AllAsk(e, st.queue);
    case Bitfield(bits) =>
      hide QueueOk;
      RequestNextIs(e, st.(has := st.has + BitfieldSet(e, bits)), ans.next);
      NextHears(e, st.(has := st.has + BitfieldSet(e, bits)), ans.next);
    case _ =>
  }

  // ---------- What the remote peer has said ----------

  /** Whether the remote peer chokes us, as it said last. */
  function SaysChoked(start: bool, inputs: seq<Input>): bool
    decreases |inputs|
  {
    if inputs == [] then start
    else SaysChoked(if inputs[0].m.Choke? then true else if inputs[0].m.UnChoke? then false else start, inputs[1..])
  }

  /** The message says that the peer has piece `i`. */
  predicate Announces(e: Settings, m: Message, i: nat) {
    i < e.totalPieces && ((m.Have? && m.index == i) || (m.Bitfield? && i in BitfieldSet(e, m.bits)))
  }

  /** What a step from `st` changes in what the peer is known to have said, by the message `m`. */
  predicate Heard(e: Settings, st: PeerState, m: Message, o: Outcome) {
    && o.state.peerChoked == (if m.Choke? then true else if m.UnChoke? then false else st.peerChoked)
    && o.state.has == st.has + (if m.Have? && m.index < e.totalPieces then {m.index} else if m.Bitfield? then BitfieldSet(e, m.bits) else {})
    && (o.state.amInterested <==> st.amInterested || Interested in o.sent)
  }

  lemma {:induction false} StepHears(e: Settings, st: PeerState, m: Message, ans: Answers)
    requires e.max > 0
    ensures Heard(e, st, m, Step(e, st, m, ans))
  {
    hide TakeBlock, RequestNext, RequestAll, BitfieldSet, FindPiece, FindRequested, Without;
    match m
    case UnChoke => NoneInterested(e, st.queue, 0);
    case PieceBlock(i, b, block) =>
      var q := FindPiece(st.queue, i);
      if q < |st.queue| {
        TakeHears(e, st, q, b / e.max, block, ans);
      }
    case Bitfield(bits) => NextHears(e, st.(has := st.has + BitfieldSet(e, bits)), ans.next);
    case _ =>
  }

  lemma {:induction false} HasGrows(e: Settings, st: PeerState, m: Message, o: Outcome)
    requires Heard(e, st, m, o)
    ensures forall i: nat :: i in o.state.has <==> i in st.has || Announces(e, m, i)
  {
    if m.Bitfield? {
      BitfieldBound(e, m.bits);
    }
    hide BitfieldSet;
  }

  lemma {:induction false} BitfieldBound(e: Settings, bits: bytes)
    ensures forall i :: i in BitfieldSet(e, bits) ==> i < e.totalPieces
  {
    hide BitAt;
  }

  lemma {:induction false} NoneInterested(e: Settings, queue: seq<Piece>, index: nat)
    requires e.max > 0
    ensures Interested !in RequestAll(e, queue) && Interested !in RequestPiece(e, index) && Interested !in CancelPiece(e, index)
    decreases |queue|
  {
    hide U32, Tiles;
    if queue != [] {
      NoneInterested(e, queue[..|queue| - 1], queue[|queue| - 1].index);
    }
  }

  lemma {:induction false} NextHears(e: Settings, st: PeerState, next: Option<nat>)
    requires e.max > 0
    ensures var o := RequestNext(e, st, next);
            && o.state.peerChoked == st.peerChoked && o.state.has == st.has
            && (o.state.amInterested <==> st.amInterested || Interested in o.sent)
  {
    hide RequestPiece, NewPiece;
  }

  lemma {:induction false} TakeHears(e: Settings, st: PeerState, q: nat, slot: nat, block: bytes, ans: Answers)
    requires e.max > 0 && q < |st.queue|
    ensures var o := TakeBlock(e, st, q, slot, block, ans);
            && o.state.peerChoked == st.peerChoked && o.state.has == st.has
            && (o.state.amInterested <==> st.amInterested || Interested in o.sent)
  {
    NoneInterested(e, [], st.queue[q].index);
    NextHears(e, st.(queue := Without(st.queue, q)), ans.next);
    hide RequestNext, CancelPiece, Flatten, Without;
  }

  /**
   Over every exchange that stays open: whether the peer chokes us is what it said last, the pieces it
   has are those at the start and those it announced, and we are interested iff we were or said so.
   */
  lemma {:induction false} RunHears(e: Settings, st: PeerState, inputs: seq<Input>)
    requires e.max > 0 && !Run(e, st, inputs).closed
    ensures var o := Run(e, st, inputs);
            && o.state.peerChoked == SaysChoked(st.peerChoked, inputs)
            && (forall i: nat :: i in o.state.has <==> i in st.has || exists k :: 0 <= k < |inputs| && Announces(e, inputs[k].m, i))
            && (o.state.amInterested <==> st.amInterested || Interested in o.sent)
    decreases |inputs|
  {
    hide Step, Announces, BitfieldSet;
    if inputs != [] {
      var o := Step(e, st, inputs[0].m, inputs[0].ans);
      StepHears(e, st, inputs[0].m, inputs[0].ans);
      HasGrows(e, st, inputs[0].m, o);
      RunHears(e, o.state, inputs[1..]);
      forall i: nat
        ensures (exists k :: 0 <= k < |inputs| && Announces(e, inputs[k].m, i))
           <==> Announces(e, inputs[0].m, i) || exists k :: 0 <= k < |inputs| - 1 && Announces(e, inputs[1..][k].m, i)
      {
        AnyOf(e, inputs, i);
      }
    }
  }

  lemma {:induction false} AnyOf(e: Settings, inputs: seq<Input>, i: nat)
    requires inputs != []
    ensures (exists k :: 0 <= k < |inputs| && Announces(e, inputs[k].m, i))
       <==> Announces(e, inputs[0].m, i) || exists k :: 0 <= k < |inputs| - 1 && Announces(e, inputs[1..][k].m, i)
  {
    hide Announces;
    if k :| 0 <= k < |inputs| && Announces(e, inputs[k].m, i) && k > 0 {
      assert inputs[1..][k - 1] == inputs[k];
    }
    if k :| 0 <= k < |inputs| - 1 && Announces(e, inputs[1..][k].m, i) {
      assert inputs[k + 1] == inputs[1..][k];
    }
  }

  /** An exchange in two parts: what was not closed in the first goes on in the second; what was is over. */
  lemma {:induction false} RunConcat(e: Settings, st: PeerState, a: seq<Input>, b: seq<Input>)
    requires e.max > 0
    ensures Run(e, st, []) == Outcome(st, [], [], false)
    ensures var o := Run(e, st, a);
            var r := Run(e, o.state, b);
            Run(e, st, a + b)
            == if o.closed then o else Outcome(r.state, o.sent + r.sent, o.delivered + r.delivered, r.closed)
    decreases |a|
  {
    hide Step;
    if a == [] {
      assert a + b == b;
    } else {
      assert (a + b)[1..] == a[1..] + b;
      var o := Step(e, st, a[0].m, a[0].ans);
      if !o.closed {
        RunConcat(e, o.state, a[1..], b);
      }
    }
  }

  /** An exchange of one message is its step. */
  lemma {:induction false} RunOne(e: Settings, st: PeerState, input: Input)
    requires e.max > 0
    ensures Run(e, st, [input]) == Step(e, st, input.m, input.ans)
  {
    hide Step;
    assert [input][1..] == [];
  }
}
