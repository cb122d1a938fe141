/**
 The class `Peer` of ctorrent/peer.cpp: the handler in its own form, with loops over requests,
 bits and blocks and with its state changed in place, proved to perform the steps of PeerProtocol.
 */
module Peers {
  import opened Bytes
  import opened Wrappers
  import opened Wire
  import opened Tiling
  import opened Bitset
  import opened Serializer
  import opened DataBuffers
  import opened PeerProtocol

  lemma {:induction false} SerializeAppend(ms: seq<Message>, m: Message)
    requires Sendable(m) && forall i :: 0 <= i < |ms| ==> Sendable(ms[i])
    ensures SerializeAll(ms + [m]) == SerializeAll(ms) + Serialize(m)
    decreases |ms|
  {
    hide Serialize;
    if ms == [] {
      assert SerializeAll([m][1..]) == [];
    } else {
      assert (ms + [m])[1..] == ms[1..] + [m];
      SerializeAppend(ms[1..], m);
    }
  }

  lemma {:induction false} RequestsCons(index: nat, t: Tile, ts: seq<Tile>)
    ensures AsRequests(index, [t] + ts) == [Request(U32(index), U32(t.begin), U32(t.length))] + AsRequests(index, ts)
    ensures AsCancels(index, [t] + ts) == [Cancel(U32(index), U32(t.begin), U32(t.length))] + AsCancels(index, ts)
    ensures AsRequests(index, []) == [] && AsCancels(index, []) == []
  {
  }

  lemma {:induction false} LastTile(index: nat, t: Tile)
    ensures AsRequests(index, [t]) == [Request(U32(index), U32(t.begin), U32(t.length))]
    ensures AsCancels(index, [t]) == [Cancel(U32(index), U32(t.begin), U32(t.length))]
  {
  }

  /** The messages of a stream with the answers given to them, from the `k`-th on. */
  function Inputs(ms: seq<Message>, answers: nat -> Answers, k: nat): (r: seq<Input>)
    ensures |r| == |ms|
    ensures forall j :: 0 <= j < |ms| ==> r[j] == Input(ms[j], answers(k + j))
  {
    seq(|ms|, j requires 0 <= j < |ms| => Input(ms[j], answers(k + j)))
  }

  lemma {:induction false} InputsCons(m: Message, ms: seq<Message>, answers: nat -> Answers, k: nat)
    ensures Inputs([m] + ms, answers, k) == [Input(m, answers(k))] + Inputs(ms, answers, k + 1)
  {
  }

  /** What is left to do with the bytes `data` from state `st` on. */
  function RunStream(e: Settings, st: PeerState, data: bytes, answers: nat -> Answers, k: nat): Outcome
    requires e.max > 0
  {
    Run(e, st, Inputs(ParseStream(data).messages, answers, k))
  }

  // One frame of the stream is one step of the run.
  lemma {:induction false} NextFrame(e: Settings, st: PeerState, data: bytes, answers: nat -> Answers, k: nat)
    requires e.max > 0 && |data| >= 4
    ensures var length := ReadBE32(data, 0);
            if length == 0 then
              && ParseStream(data).rest == ParseStream(data[4..]).rest
              && ParseStream(data).closed == ParseStream(data[4..]).closed
              && RunStream(e, st, data, answers, k) == RunStream(e, st, data[4..], answers, k + 1)
            else if |data| < 4 + length then
              && ParseStream(data) == Stream([], data, false)
              && RunStream(e, st, data, answers, k) == Stay(st, [])
            else
              var m, next := ParseBody(data[4], data[5..4 + length]), data[4 + length..];
              if m.None? then
                && ParseStream(data).closed
                && RunStream(e, st, data, answers, k) == Stay(st, [])
              else
                && ParseStream(data).rest == ParseStream(next).rest
                && ParseStream(data).closed == ParseStream(next).closed
                && RunStream(e, st, data, answers, k) == After(Step(e, st, m.value, answers(k)), e, next, answers, k)
  {
    hide ReadBE32, ParseBody, Step, Inputs;
    var length: nat := ReadBE32(data, 0);
    if length == 0 {
      InputsCons(KeepAlive, ParseStream(data[4..]).messages, answers, k);
      Unfold(e, st, KeepAlive, answers(k), Inputs(ParseStream(data[4..]).messages, answers, k + 1));
      AliveStep(e, st, answers(k));
    } else if |data| >= 4 + length && ParseBody(data[4], data[5..4 + length]).Some? {
      var m := ParseBody(data[4], data[5..4 + length]).value;
      InputsCons(m, ParseStream(data[4 + length..]).messages, answers, k);
      Unfold(e, st, m, answers(k), Inputs(ParseStream(data[4 + length..]).messages, answers, k + 1));
    }
  }

  lemma {:induction false} ShortFrame(e: Settings, st: PeerState, data: bytes, answers: nat -> Answers, k: nat)
    requires e.max > 0 && |data| < 4
    ensures ParseStream(data) == Stream([], data, false) && RunStream(e, st, data, answers, k) == Stay(st, [])
  {
  }

  lemma {:induction false} AliveStep(e: Settings, st: PeerState, ans: Answers)
    requires e.max > 0
    ensures Step(e, st, KeepAlive, ans) == Stay(st, [])
  {
  }

  /** The outcome `o` of one message followed by the rest of the stream. */
  function After(o: Outcome, e: Settings, next: bytes, answers: nat -> Answers, k: nat): Outcome
    requires e.max > 0
  {
    if o.closed then o
    else
      var rest := RunStream(e, o.state, next, answers, k + 1);
      Outcome(rest.state, o.sent + rest.sent, o.delivered + rest.delivered, rest.closed)
  }

  /** `o` is what the messages `s` sent and the pieces `d` handed over so far, followed by `r`, add to `s0` and `d0`. */
  predicate Left(o: Outcome, s0: seq<Message>, d0: seq<Delivery>, s: seq<Message>, d: seq<Delivery>, r: Outcome) {
    && r.state == o.state && r.closed == o.closed
    && s + r.sent == s0 + o.sent
    && d + r.delivered == d0 + o.delivered
  }

  lemma {:induction false} NothingDone(o: Outcome, s: seq<Message>, d: seq<Delivery>)
    ensures Left(o, s, d, s, d, o)
  {
  }

  lemma {:induction false} StayIs(st: PeerState)
    ensures Stay(st, []) == Outcome(st, [], [], false)
  {
  }

  lemma {:induction false} NothingLeft(o: Outcome, s0: seq<Message>, d0: seq<Delivery>, s: seq<Message>, d: seq<Delivery>, r: Outcome)
    requires Left(o, s0, d0, s, d, r) && r.sent == [] && r.delivered == []
    ensures r.state == o.state && r.closed == o.closed && s == s0 + o.sent && d == d0 + o.delivered
  {
  }

  lemma {:induction false} LeftStep(o: Outcome, s0: seq<Message>, d0: seq<Delivery>, s: seq<Message>, d: seq<Delivery>,
                 step: Outcome, e: Settings, next: bytes, answers: nat -> Answers, k: nat)
    requires e.max > 0 && Left(o, s0, d0, s, d, After(step, e, next, answers, k))
    ensures step.closed ==> Left(o, s0, d0, s + step.sent, d + step.delivered, Outcome(step.state, [], [], true))
    ensures !step.closed ==>
              Left(o, s0, d0, s + step.sent, d + step.delivered, RunStream(e, step.state, next, answers, k + 1))
  {
    hide RunStream;
    if !step.closed {
      var rest := RunStream(e, step.state, next, answers, k + 1);
      assert s + (step.sent + rest.sent) == s + step.sent + rest.sent;
      assert d + (step.delivered + rest.delivered) == d + step.delivered + rest.delivered;
    }
  }

  lemma {:induction false} Unfold(e: Settings, st: PeerState, m: Message, ans: Answers, rest: seq<Input>)
    requires e.max > 0
    ensures var o := Step(e, st, m, ans);
            var r := Run(e, o.state, rest);
            Run(e, st, [Input(m, ans)] + rest)
              == if o.closed then o else Outcome(r.state, o.sent + r.sent, o.delivered + r.delivered, r.closed)
  {
    hide Step;
    assert ([Input(m, ans)] + rest)[1..] == rest;
  }

  class Peer {
    const e: Settings
    const conn: Connection
    const bitset: Bitset
    const greeting: bytes          // handshake and bitfield, written before the first message is read
    var amChoked: bool
    var amInterested: bool
    var peerChoked: bool
    var peerInterested: bool
    var queue: seq<Piece>
    var requested: seq<BlockInfo>
    var closed: bool
    ghost var sent: seq<Message>
    ghost var delivered: seq<Delivery>

    /** The bytes written to the connection are the messages sent, one behind the other. */
    ghost predicate OnTheWire()
      reads this`sent, conn
    {
      && (forall i :: 0 <= i < |sent| ==> Sendable(sent[i]))
      && conn.written == greeting + SerializeAll(sent)
    }

    ghost predicate Valid()
      reads this, conn, bitset.bits
    {
      && PeerProtocol.Valid(e)
      && bitset.bits.Length == e.totalPieces
      && QueueOk(e, queue)
      && OnTheWire()
    }

    ghost function State(): PeerState
      reads this, bitset.bits
    {
      PeerState(amChoked, amInterested, peerChoked, peerInterested, bitset.Members(), queue, requested)
    }

    constructor (settings: Settings, c: Connection)
      requires PeerProtocol.Valid(settings)
      ensures Valid() && e == settings && conn == c && fresh(bitset.bits)
      ensures State() == PeerState(true, false, true, false, {}, [], [])
      ensures !closed && sent == [] && delivered == []
    {
      e := settings;
      conn := c;
      greeting := c.written;
      bitset := new Bitset(settings.totalPieces);
      amChoked, amInterested, peerChoked, peerInterested := true, false, true, false;
      queue, requested, closed := [], [], false;
      sent, delivered := [], [];
    }

    /** What a call did: it took the object from the old state to the outcome `o`. */
    twostate predicate Did(o: Outcome)
      reads this, bitset.bits
    {
      && State() == o.state
      && closed == o.closed
      && sent == old(sent) + o.sent
      && delivered == old(delivered) + o.delivered
    }

    // ---------- Sending ----------

    ghost method Record(m: Message)
      requires Sendable(m) && forall i :: 0 <= i < |sent| ==> Sendable(sent[i])
      requires conn.written == greeting + SerializeAll(sent) + Serialize(m)
      modifies this`sent
      ensures OnTheWire() && sent == old(sent) + [m]
    {
      hide Serialize, SerializeAll;
      SerializeAppend(sent, m);
      sent := sent + [m];
    }

    method SendChoke()
      requires OnTheWire()
      modifies this`sent, this`amChoked, conn
      ensures OnTheWire() && sent == old(sent) + [Choke] && amChoked
    {
      hide Serialize, SerializeAll;
      conn.SendChoke();
      Record(Choke);
      amChoked := true;
    }

    method SendUnchoke()
      requires OnTheWire()
      modifies this`sent, this`amChoked, conn
      ensures OnTheWire() && sent == old(sent) + [UnChoke] && !amChoked
    {
      hide Serialize, SerializeAll;
      conn.SendUnchoke();
      Record(UnChoke);
      amChoked := false;
    }

    method SendInterested()
      requires OnTheWire()
      modifies this`sent, this`amInterested, conn
      ensures OnTheWire() && sent == old(sent) + [Interested] && amInterested
    {
      hide Serialize, SerializeAll;
      conn.SendInterested();
      Record(Interested);
      amInterested := true;
    }

    method SendRequest(index: uint32, begin: uint32, length: uint32)
      requires OnTheWire()
      modifies this`sent, conn
      ensures OnTheWire() && sent == old(sent) + [Request(index, begin, length)]
    {
      hide Serialize, SerializeAll;
      conn.SendRequest(index, begin, length);
      Record(Request(index, begin, length));
    }

    method SendCancel(index: uint32, begin: uint32, length: uint32)
      requires OnTheWire()
      modifies this`sent, conn
      ensures OnTheWire() && sent == old(sent) + [Cancel(index, begin, length)]
    {
      hide Serialize, SerializeAll;
      conn.SendCancel(index, begin, length);
      Record(Cancel(index, begin, length));
    }

    /** `sendHave`: choked peers are told nothing. */
    method SendHave(index: uint32)
      requires OnTheWire()
      modifies this`sent, conn
      ensures OnTheWire() && sent == old(sent) + if amChoked then [] else [Have(index)]
    {
      hide Serialize, SerializeAll;
      if amChoked {
        return;
      }
      conn.SendHave(index);
      Record(Have(index));
    }

    /** `requestPiece`. */
    method RequestBlocks(index: nat)
      requires OnTheWire() && e.max > 0
      modifies this`sent, this`closed, conn
      ensures OnTheWire()
      ensures sent == old(sent) + if peerChoked then [] else RequestPiece(e, index)
      ensures closed == (old(closed) || peerChoked)
    {
      hide AsRequests, AsCancels, OnTheWire, U32;
      if peerChoked {
        closed := true;
        return;
      }
      var begin: nat, length: nat := 0, e.pieceSize(index);
      while length > e.max
        invariant OnTheWire() && closed == old(closed)
        invariant sent + AsRequests(index, TilesFrom(begin, length, e.max)) == old(sent) + RequestPiece(e, index)
        decreases length
      {
        RequestsCons(index, Tile(begin, e.max), TilesFrom(begin + e.max, length - e.max, e.max));
        SendRequest(U32(index), U32(begin), U32(e.max));
        length := length - e.max;
        begin := begin + e.max;
      }
      LastTile(index, Tile(begin, length));
      SendRequest(U32(index), U32(begin), U32(length));
    }

    /** `cancelPiece`. */
    method CancelBlocks(index: nat)
      requires OnTheWire() && e.max > 0
      modifies this`sent, conn
      ensures OnTheWire() && sent == old(sent) + CancelPiece(e, index)
    {
      hide AsRequests, AsCancels, OnTheWire, U32;
      var begin: nat, length: nat := 0, e.pieceSize(index);
      while length > e.max
        invariant OnTheWire()
        invariant sent + AsCancels(index, TilesFrom(begin, length, e.max)) == old(sent) + CancelPiece(e, index)
        decreases length
      {
        RequestsCons(index, Tile(begin, e.max), TilesFrom(begin + e.max, length - e.max, e.max));
        SendCancel(U32(index), U32(begin), U32(e.max));
        length := length - e.max;
        begin := begin + e.max;
      }
      LastTile(index, Tile(begin, length));
      SendCancel(U32(index), U32(begin), U32(length));
    }

    /** `Torrent::requestPiece` with `sendPieceRequest`: the piece is queued, and requested unless the peer chokes us. */
    method RequestNextPiece(next: Option<nat>)
      requires Valid() && !closed && (next.Some? ==> next.value < e.totalPieces)
      modifies this, conn
      ensures Valid() && Did(RequestNext(e, old(State()), next))
    {
      MaxPositive();
      RequestNextOk(e, State(), next);
      RequestNextDelivers(e, State(), next);
      hide RequestPiece, QueueOk, NewPiece, OnTheWire, PeerProtocol.Valid, Bitset.Members;
      if next.Some? {
        SendInterested();
        queue := queue + [NewPiece(e, next.value)];
        if !peerChoked {
          RequestBlocks(next.value);
        }
      }
    }

    // ---------- Receiving ----------

    /** The pieces among the first `n` whose bit is set in the message. */
    ghost function BitsBelow(bits: bytes, n: nat): set<nat> {
      set i: nat | i < e.totalPieces && i < n && BitAt(bits, i)
    }

    lemma {:induction false} NextBit(bits: bytes, i: nat, x: nat)
      requires i < |bits| && x < 8
      ensures BitAt(bits, 8 * i + x) <==> (bits[i] / Pow2(7 - x)) % 2 == 1
      ensures BitsBelow(bits, 8 * i + x + 1)
           == BitsBelow(bits, 8 * i + x) + if 8 * i + x < e.totalPieces && BitAt(bits, 8 * i + x) then {8 * i + x} else {}
    {
      hide Pow2;
      assert (8 * i + x) / 8 == i && (8 * i + x) % 8 == x;
    }

    lemma {:induction false} AllBits(bits: bytes)
      ensures BitsBelow(bits, 0) == {}
      ensures BitsBelow(bits, 8 * |bits|) == BitfieldSet(e, bits)
    {
      hide Pow2;
    }

    method HandleBitfield(bits: bytes, ans: Answers)
      requires Valid() && !closed && AnswerOk(e, ans)
      modifies this, conn, bitset.bits
      ensures Valid() && Did(Step(e, old(State()), Bitfield(bits), ans))
    {
      hide BitAt, Pow2, QueueOk, OnTheWire, BitfieldSet, BitsBelow, RequestNext, PeerProtocol.Valid;
      AllBits(bits);
      for i := 0 to |bits|
        invariant bitset.Members() == old(bitset.Members()) + BitsBelow(bits, 8 * i)
        invariant unchanged(this) && unchanged(conn)
      {
        for x := 0 to 8
          invariant bitset.Members() == old(bitset.Members()) + BitsBelow(bits, 8 * i + x)
          invariant unchanged(this) && unchanged(conn)
        {
          NextBit(bits, i, x);
          if (bits[i] / Pow2(7 - x)) % 2 == 1 {
            var index := 8 * i + x;
            if index < e.totalPieces {
              bitset.Set(index);
            }
          }
        }
      }
      if !ans.finished {
        RequestNextPiece(ans.next);
      }
    }

    /** All queued pieces are requested again. */
    method HandleUnChoke(ans: Answers)
      requires Valid() && !closed
      modifies this, conn
      ensures Valid() && Did(Step(e, old(State()), UnChoke, ans))
    {
      hide QueueOk, OnTheWire, RequestPiece, PeerProtocol.Valid;
      assert e.max > 0 by { MaxPositive(); }
      peerChoked := false;
      for k := 0 to |queue|
        invariant OnTheWire() && !closed && queue == old(queue)
        invariant State() == old(State()).(peerChoked := false)
        invariant sent == old(sent) + RequestAll(e, queue[..k]) && delivered == old(delivered)
      {
        assert queue[..k + 1][..k] == queue[..k];
        RequestBlocks(queue[k].index);
      }
      assert queue[..|queue|] == queue;
    }

    lemma {:induction false} MaxPositive()
      requires PeerProtocol.Valid(e)
      ensures e.max > 0
    {
    }

    /** A request is remembered iff it is answered neither by closing the connection nor by a message, that is a choke. */
    method HandleRequest(index: uint32, begin: uint32, length: uint32, ans: Answers)
      requires Valid() && !closed
      modifies this, conn
      ensures Valid() && Did(Step(e, old(State()), Request(index, begin, length), ans))
      ensures requested == old(requested) + if !closed && sent == old(sent) then [BlockInfo(index, begin, length)] else []
    {
      hide QueueOk, OnTheWire;
      if !peerInterested {
        closed := true;
        return;
      }
      if amChoked {
        closed := true;
        return;
      }
      if length > e.max {
        closed := true;
        return;
      }
      if !ans.readAccepted {
        SendChoke();
        return;
      }
      requested := requested + [BlockInfo(index, begin, length)];
    }

    /** Exactly the first remembered request that is equal is taken off the list; if there is none, nothing changes. */
    method HandleCancel(index: uint32, begin: uint32, length: uint32, ans: Answers)
      requires Valid() && !closed
      modifies this
      ensures Valid() && Did(Step(e, old(State()), Cancel(index, begin, length), ans))
      ensures var b := BlockInfo(index, begin, length);
              if b !in old(requested) then requested == old(requested)
              else
                exists k :: 0 <= k < |old(requested)| && old(requested)[k] == b && b !in old(requested)[..k]
                  && requested == old(requested)[..k] + old(requested)[k + 1..]
    {
      hide QueueOk, OnTheWire, FindRequested;
      var k := FindRequested(requested, BlockInfo(index, begin, length));
      NotFound(requested, BlockInfo(index, begin, length));
      assert BlockInfo(index, begin, length) !in requested[..k];
      if k < |requested| {
        requested := requested[..k] + requested[k + 1..];
      }
    }

    static lemma {:induction false} FlattenPrefix(blocks: seq<bytes>, n: nat)
      requires n <= |blocks|
      ensures |Flatten(blocks[..n])| <= |Flatten(blocks)|
    {
      if n == |blocks| {
        assert blocks[..n] == blocks;
      } else {
        FlattenPrefix(blocks[..|blocks| - 1], n);
        assert blocks[..|blocks| - 1][..n] == blocks[..n];
      }
    }

    static lemma {:induction false} FlattenStep(blocks: seq<bytes>, n: nat)
      requires n < |blocks|
      ensures Flatten(blocks[..n + 1]) == Flatten(blocks[..n]) + blocks[n]
      ensures Flatten(blocks[..0]) == []
      ensures |Flatten(blocks[..n])| + |blocks[n]| <= |Flatten(blocks)|
    {
      assert blocks[..n + 1][..n] == blocks[..n];
      FlattenPrefix(blocks, n + 1);
    }

    /** The blocks copied into one buffer; the unchecked appends stay within what was reserved. */
    method Assemble(p: Piece) returns (pieceData: DataBuffer<byte>)
      requires p.numBlocks == |p.blocks| && |Flatten(p.blocks)| <= p.numBlocks * e.max
      ensures fresh(pieceData) && fresh(pieceData.buffer)
      ensures pieceData.Valid() && pieceData.Contents() == Flatten(p.blocks)
    {
      hide Flatten;
      pieceData := new DataBuffer<byte>(64);
      pieceData.Reserve(p.numBlocks * e.max);
      ghost var room := pieceData.buffer.Length;
      assert pieceData.Contents() == Flatten(p.blocks[..0]) by { EmptyFlatten(p.blocks); }
      for x := 0 to p.numBlocks
        invariant fresh(pieceData.buffer) && pieceData.Valid() && pieceData.buffer.Length == room
        invariant pieceData.Contents() == Flatten(p.blocks[..x])
      {
        FlattenStep(p.blocks, x);
        for y := 0 to |p.blocks[x]|
          invariant fresh(pieceData.buffer) && pieceData.Valid() && pieceData.buffer.Length == room
          invariant pieceData.Contents() == Flatten(p.blocks[..x]) + p.blocks[x][..y]
        {
          pieceData.AddUnchecked(p.blocks[x][y]);
          assert p.blocks[x][..y + 1] == p.blocks[x][..y] + [p.blocks[x][y]];
        }
        assert p.blocks[x][..|p.blocks[x]|] == p.blocks[x];
      }
      assert p.blocks[..p.numBlocks] == p.blocks;
    }

    static lemma {:induction false} EmptyFlatten(blocks: seq<bytes>)
      ensures Flatten(blocks[..0]) == []
    {
    }

    method HandlePieceBlock(index: uint32, begin: uint32, block: bytes, ans: Answers)
      requires Valid() && !closed && AnswerOk(e, ans)
      modifies this, conn
      ensures Valid() && Did(Step(e, old(State()), PieceBlock(index, begin, block), ans))
    {
      hide QueueOk, OnTheWire, RequestNext, CancelPiece, FindPiece, Store, Flatten, TakeBlock;
      if block == [] || |block| > e.max {
        closed := true;
        return;
      }
      var q := FindPiece(queue, index);
      if q == |queue| {
        closed := true;
        return;
      }
      TakePieceBlock(q, begin / e.max, block, ans);
    }

    // The part of the handler behind the search for the piece.
    method TakePieceBlock(q: nat, blockIndex: nat, block: bytes, ans: Answers)
      requires Valid() && !closed && AnswerOk(e, ans)
      requires q < |queue| && |block| <= e.max
      modifies this, conn
      ensures Valid() && Did(TakeBlock(e, old(State()), q, blockIndex, block, ans))
    {
      QueuedOk(q);
      hide QueueOk, PieceOk, OnTheWire, CancelPiece, Without, Finish, PeerProtocol.Valid;
      if blockIndex >= queue[q].numBlocks {
        closed := true;
        return;
      }
      if ans.done {
        DropPiece(q);
        return;
      }
      StoreBlock(q, blockIndex, block, ans);
    }

    // The piece has been completed by somebody else.
    method DropPiece(q: nat)
      requires Valid() && !closed && q < |queue|
      modifies this, conn
      ensures Valid() && Did(Stay(old(State()).(queue := Without(old(queue), q)), CancelPiece(e, old(queue)[q].index)))
    {
      QueueWithout(e, queue, q);
      hide QueueOk, PieceOk, OnTheWire, CancelPiece, Without;
      CancelBlocks(queue[q].index);
      queue := Without(queue, q);
    }

    // The block is stored and counted.
    method StoreBlock(q: nat, blockIndex: nat, block: bytes, ans: Answers)
      requires Valid() && !closed && AnswerOk(e, ans)
      requires q < |queue| && |block| <= e.max && blockIndex < |queue[q].blocks|
      modifies this, conn
      ensures Valid()
      ensures var p := Store(old(queue)[q], blockIndex, block);
              if p.currentBlocks != p.numBlocks then Did(Stay(old(State()).(queue := old(queue)[q := p]), []))
              else Did(Finish(e, old(State()).(queue := Without(old(queue), q)), p, ans))
    {
      hide *;
      QueuedOk(q);
      var stored := Store(queue[q], blockIndex, block);
      StoreOk(e, queue[q], blockIndex, block);
      StoreShape(queue[q], blockIndex, block);
      if stored.currentBlocks != stored.numBlocks {
        ReplacePiece(q, stored);
        return;
      }
      FinishPiece(q, stored, ans);
    }

    static lemma {:induction false} StoreShape(p: Piece, k: nat, block: bytes)
      requires k < |p.blocks| == p.numBlocks
      ensures |Store(p, k, block).blocks| == Store(p, k, block).numBlocks
    {
    }

    method ReplacePiece(q: nat, p: Piece)
      requires Valid() && !closed && q < |queue| && e.max > 0 && PieceOk(e, p)
      modifies this`queue
      ensures Valid() && Did(Stay(old(State()).(queue := old(queue)[q := p]), []))
    {
      hide PieceOk, OnTheWire, PeerProtocol.Valid, Bitset.Members;
      queue := queue[q := p];
    }

    // The last counted block has been stored.
    method FinishPiece(q: nat, stored: Piece, ans: Answers)
      requires Valid() && !closed && AnswerOk(e, ans)
      requires q < |queue| && stored.numBlocks == |stored.blocks| && |Flatten(stored.blocks)| <= stored.numBlocks * e.max
      modifies this, conn
      ensures Valid() && Did(Finish(e, old(State()).(queue := Without(old(queue), q)), stored, ans))
    {
      QueueWithout(e, queue, q);
      hide QueueOk, PieceOk, OnTheWire, RequestNext, Flatten, Without, PeerProtocol.Valid;
      var pieceData := Assemble(stored);
      queue := Without(queue, q);
      delivered := delivered + [Delivery(stored.index, pieceData.Contents())];
      if !ans.writeAccepted {
        SendChoke();
      } else if !ans.finished {
        RequestNextDelivers(e, State(), ans.next);
        RequestNextPiece(ans.next);
      }
    }

    lemma {:induction false} QueuedOk(q: nat)
      requires Valid() && q < |queue|
      ensures e.max > 0 && queue[q].numBlocks == |queue[q].blocks|
      ensures PieceOk(e, queue[q])
    {
    }

    // The four messages without a payload.
    method HandleStateMessage(kind: byte, payloadSize: nat, ans: Answers)
      requires Valid() && !closed && kind <= MT_NOT_INTERESTED
      modifies this, conn
      ensures Valid()
      ensures Did(if payloadSize != 0 then Close(old(State())) else Step(e, old(State()), StateMessage(kind), ans))
    {
      hide QueueOk, OnTheWire, RequestAll, BitfieldSet, RequestNext, TakeBlock, FindPiece, FindRequested, ReadBE32;
      hide PeerProtocol.Valid;
      if payloadSize != 0 {
        closed := true;
        return;
      }
      if kind == MT_CHOKE {
        peerChoked := true;
      } else if kind == MT_UNCHOKE {
        HandleUnChoke(ans);
      } else if kind == MT_INTERESTED {
        peerInterested := true;
        if amChoked {
          SendUnchoke();
        }
      } else if kind == MT_NOT_INTERESTED {
        peerInterested := false;
      }
    }

    static function StateMessage(kind: byte): Message {
      if kind == MT_CHOKE then Choke
      else if kind == MT_UNCHOKE then UnChoke
      else if kind == MT_INTERESTED then Interested
      else NotInterested
    }

    // A request or a cancel: three numbers.
    method HandleTriple(kind: byte, input: InputMessage, ans: Answers)
      requires Valid() && !closed && AnswerOk(e, ans)
      requires input.pos == 0 && (kind == MT_REQUEST || kind == MT_CANCEL)
      modifies this, conn, input
      ensures Valid()
      ensures var m := ParseBody(kind, input.data);
              Did(if m.None? then Close(old(State())) else Step(e, old(State()), m.value, ans))
    {
      hide QueueOk, OnTheWire, Step, ReadBE32, PeerProtocol.Valid;
      if |input.data| != 12 {
        closed := true;
        return;
      }
      var index := input.GetU32();
      var begin := input.GetU32();
      var length := input.GetU32();
      if kind == MT_REQUEST {
        HandleRequest(index, begin, length, ans);
      } else {
        HandleCancel(index, begin, length, ans);
      }
    }

    // A block: two numbers, and the rest of the payload.
    method HandleBlock(input: InputMessage, ans: Answers)
      requires Valid() && !closed && AnswerOk(e, ans) && input.pos == 0
      modifies this, conn, input
      ensures Valid()
      ensures var m := ParseBody(MT_PIECE_BLOCK, input.data);
              Did(if m.None? then Close(old(State())) else Step(e, old(State()), m.value, ans))
    {
      hide QueueOk, OnTheWire, Step, ReadBE32, PeerProtocol.Valid;
      var payloadSize := |input.data|;
      if payloadSize < 9 {
        closed := true;
        return;
      }
      var index := input.GetU32();
      var begin := input.GetU32();
      var block := input.GetBuffer(payloadSize - 8);
      assert input.data[8..payloadSize] == input.data[8..];
      HandlePieceBlock(index, begin, block.value, ans);
    }

    /** `handleMessage`: a message of the wrong size closes the connection and changes nothing else. */
    method HandleMessage(kind: byte, input: InputMessage, ans: Answers)
      requires Valid() && !closed && AnswerOk(e, ans)
      requires input.pos == 0
      modifies this, conn, bitset.bits, input
      ensures Valid()
      ensures var m := ParseBody(kind, input.data);
              Did(if m.None? then Close(old(State())) else Step(e, old(State()), m.value, ans))
    {
      hide QueueOk, OnTheWire, RequestAll, BitfieldSet, RequestNext, TakeBlock, FindPiece, FindRequested, ReadBE32;
      hide PeerProtocol.Valid;
      var payloadSize := |input.data|;
      if kind <= MT_NOT_INTERESTED {
        HandleStateMessage(kind, payloadSize, ans);
      } else if kind == MT_HAVE {
        if payloadSize != 4 {
          closed := true;
          return;
        }
        var i := input.GetU32();
        if i < bitset.bits.Length {
          bitset.Set(i);
        }
      } else if kind == MT_BITFIELD {
        if payloadSize < 1 {
          closed := true;
          return;
        }
        HandleBitfield(input.data, ans);
      } else if kind == MT_REQUEST || kind == MT_CANCEL {
        HandleTriple(kind, input, ans);
      } else if kind == MT_PIECE_BLOCK {
        HandleBlock(input, ans);
      } else if kind == MT_PORT {
        if payloadSize != 2 {
          closed := true;
          return;
        }
        var port := input.GetU16();
      }
    }

    // One frame, seen as a step of the run `o` over the whole stream.
    method HandleFrame(kind: byte, payload: bytes, ghost next: bytes, answers: nat -> Answers, k: nat,
                       ghost o: Outcome, ghost s0: seq<Message>, ghost d0: seq<Delivery>)
      requires Valid() && !closed && AnswerOk(e, answers(k)) && e.max > 0
      requires var m := ParseBody(kind, payload);
               Left(o, s0, d0, sent, delivered,
                    if m.None? then Stay(State(), []) else After(Step(e, State(), m.value, answers(k)), e, next, answers, k))
      modifies this, conn, bitset.bits
      ensures Valid()
      ensures !closed ==> Left(o, s0, d0, sent, delivered, RunStream(e, State(), next, answers, k + 1))
      ensures closed ==>
                && State() == o.state && o.closed == ParseBody(kind, payload).Some?
                && sent == s0 + o.sent && delivered == d0 + o.delivered
      ensures ParseBody(kind, payload).None? ==> closed
    {
      hide ParseBody, Step, Valid, AnswerOk, Left, RunStream, After, Bitset.Members;
      ghost var m := ParseBody(kind, payload);
      if m.Some? {
        LeftStep(o, s0, d0, sent, delivered, Step(e, State(), m.value, answers(k)), e, next, answers, k);
      }
      var input := new InputMessage(payload);
      HandleMessage(kind, input, answers(k));
      assert m.None? ==> sent == old(sent) && delivered == old(delivered);
      if closed {
        NothingLeft(o, s0, d0, sent, delivered, Outcome(State(), [], [], m.Some?));
      }
    }

    /**
     `handle` and the reads it schedules, over all bytes that arrive: they take the peer through
     exactly the run of the messages that the stream parses to. Answer `k` belongs to message `k`.
     What is left is an incomplete frame.
     */
    method Receive(data: bytes, answers: nat -> Answers) returns (rest: bytes)
      requires Valid() && !closed && forall k: nat :: AnswerOk(e, answers(k))
      modifies this, conn, bitset.bits
      ensures Valid()
      ensures var o := RunStream(e, old(State()), data, answers, 0);
              && State() == o.state
              && sent == old(sent) + o.sent
              && delivered == old(delivered) + o.delivered
              && closed == (o.closed || ParseStream(data).closed)
      ensures !closed ==> rest == ParseStream(data).rest
    {
      hide *;
      SettingsOk();
      NothingDone(RunStream(e, State(), data, answers, 0), sent, delivered);
      ghost var o, s0, d0 := RunStream(e, State(), data, answers, 0), sent, delivered;
      rest := data;
      var k: nat := 0;
      while |rest| >= 4
        invariant Valid() && !closed
        invariant ParseStream(rest).rest == ParseStream(data).rest && ParseStream(rest).closed == ParseStream(data).closed
        invariant Left(o, s0, d0, sent, delivered, RunStream(e, State(), rest, answers, k))
        decreases |rest|
      {
        StayIs(State());
        NextFrame(e, State(), rest, answers, k);
        var length: nat := ReadBE32(rest, 0);
        if length == 0 {
          rest := rest[4..];
        } else if |rest| < 4 + length {
          NothingLeft(o, s0, d0, sent, delivered, Stay(State(), []));
          return;
        } else {
          var next := rest[4 + length..];
          HandleFrame(rest[4], rest[5..4 + length], next, answers, k, o, s0, d0);
          if closed {
            return;
          }
          rest := next;
        }
        k := k + 1;
      }
      StayIs(State());
      ShortFrame(e, State(), rest, answers, k);
      NothingLeft(o, s0, d0, sent, delivered, Stay(State(), []));
    }

    lemma {:induction false} SettingsOk()
      requires Valid()
      ensures e.max > 0
    {
    }
  }

  datatype Member = Member(ip: uint32, peer: Peer)

  /** The connected peers of `Torrent`, in the order in which its map is walked. */
  class Swarm {
    const e: Settings
    const members: seq<Member>
    var downloadedBytes: nat

    ghost function Objects(): set<Peer> {
      set k | 0 <= k < |members| :: members[k].peer
    }

    ghost function Connections(): set<Connection> {
      set k | 0 <= k < |members| :: members[k].peer.conn
    }

    /** Peers and connections are not shared. */
    ghost predicate Valid()
      reads Objects(), Connections()
    {
      && (forall k :: 0 <= k < |members| ==>
            members[k].peer.OnTheWire() && members[k].peer.bitset.bits.Length == e.totalPieces)
      && (forall j, k :: 0 <= j < k < |members| ==>
            members[j].peer != members[k].peer && members[j].peer.conn != members[k].peer.conn)
    }

    constructor (settings: Settings, ms: seq<Member>)
      requires forall k :: 0 <= k < |ms| ==>
                 ms[k].peer.OnTheWire() && ms[k].peer.bitset.bits.Length == settings.totalPieces
      requires forall j, k :: 0 <= j < k < |ms| ==> ms[j].peer != ms[k].peer && ms[j].peer.conn != ms[k].peer.conn
      ensures Valid() && e == settings && members == ms && downloadedBytes == 0
    {
      e, members, downloadedBytes := settings, ms, 0;
    }

    /** `onPieceWriteComplete`: `Have` goes once to each peer that did not send the piece, does not have it and is not choked. */
    method OnPieceWriteComplete(from: uint32, index: uint32)
      requires Valid() && index < e.totalPieces
      modifies this`downloadedBytes, Objects()`sent, Connections()
      ensures Valid() && downloadedBytes == old(downloadedBytes) + e.pieceSize(index)
      ensures forall k :: 0 <= k < |members| ==>
                members[k].peer.sent
                == old(members[k].peer.sent)
                   + if members[k].ip != from && old(index !in members[k].peer.bitset.Members() && !members[k].peer.amChoked)
                     then [Have(index)] else []
    {
      hide Bitset.Members, Peer.OnTheWire;
      downloadedBytes := downloadedBytes + e.pieceSize(index);
      for k := 0 to |members|
        invariant Valid() && downloadedBytes == old(downloadedBytes) + e.pieceSize(index)
        invariant forall j :: 0 <= j < k ==>
                    members[j].peer.sent
                    == old(members[j].peer.sent)
                       + if members[j].ip != from && old(index !in members[j].peer.bitset.Members() && !members[j].peer.amChoked)
                         then [Have(index)] else []
        invariant forall j :: k <= j < |members| ==> members[j].peer.sent == old(members[j].peer.sent)
      {
        Tell(k, from, index);
      }
    }

    method Tell(k: nat, from: uint32, index: uint32)
      requires Valid() && index < e.totalPieces && k < |members|
      modifies members[k].peer`sent, members[k].peer.conn
      ensures Valid()
      ensures members[k].peer.sent
           == old(members[k].peer.sent)
              + if members[k].ip != from && old(index !in members[k].peer.bitset.Members() && !members[k].peer.amChoked)
                then [Have(index)] else []
    {
      hide Bitset.Members, Peer.OnTheWire;
      var m := members[k];
      if m.ip != from && !m.peer.bitset.Test(index) {
        m.peer.SendHave(index);
      }
    }
  }
}
