/**
 The wire format of peer messages (BEP 3, section "peer messages"): the `send*` serializers and
 the framing of `handle`/`handleMessage` in ctorrent/peer.cpp, with the message buffers of
 net/outputmessage.cpp and net/inputmessage.cpp.
 */
module Wire {
  import opened Bytes
  import opened Wrappers
  import opened Serializer
  import opened DataBuffers

  datatype Message =
    | KeepAlive
    | Choke
    | UnChoke
    | Interested
    | NotInterested
    | Have(index: uint32)
    | Bitfield(bits: bytes)
    | Request(index: uint32, begin: uint32, length: uint32)
    | PieceBlock(index: uint32, begin: uint32, block: bytes)
    | Cancel(index: uint32, begin: uint32, length: uint32)
    | Port(port: nat)
    | Unknown(kind: byte, payload: bytes)

  const MT_CHOKE: byte := 0
  const MT_UNCHOKE: byte := 1
  const MT_INTERESTED: byte := 2
  const MT_NOT_INTERESTED: byte := 3
  const MT_HAVE: byte := 4
  const MT_BITFIELD: byte := 5
  const MT_REQUEST: byte := 6
  const MT_PIECE_BLOCK: byte := 7
  const MT_CANCEL: byte := 8
  const MT_PORT: byte := 9

  const TWO32: nat := 0x1_0000_0000

  // ---------- Serializing ----------

  /** The messages that have a `send` function, with a length that fits the prefix. */
  predicate Sendable(m: Message) {
    match m
    case NotInterested => false
    case Port(_) => false
    case Unknown(_, _) => false
    case Bitfield(bits) => 1 + |bits| < TWO32
    case PieceBlock(_, _, block) => 9 + |block| < TWO32
    case _ => true
  }

  /** The type byte and payload that follow the length prefix. */
  function Body(m: Message): bytes
    requires Sendable(m)
  {
    match m
    case KeepAlive => []
    case Choke => [MT_CHOKE]
    case UnChoke => [MT_UNCHOKE]
    case Interested => [MT_INTERESTED]
    case Have(i) => [MT_HAVE] + BE32(i)
    case Bitfield(bits) => [MT_BITFIELD] + bits
    case Request(i, b, l) => [MT_REQUEST] + BE32(i) + BE32(b) + BE32(l)
    case PieceBlock(i, b, block) => [MT_PIECE_BLOCK] + BE32(i) + BE32(b) + block
    case Cancel(i, b, l) => [MT_CANCEL] + BE32(i) + BE32(b) + BE32(l)
  }

  lemma {:induction false} BodySize(m: Message)
    requires Sendable(m)
    ensures |Body(m)| < TWO32
    ensures Body(m) == [] <==> m.KeepAlive?
  {
  }

  /** What the `send` function of a message writes to the connection. */
  function Serialize(m: Message): bytes
    requires Sendable(m)
  {
    BodySize(m);
    BE32(|Body(m)|) + Body(m)
  }

  function SerializeAll(ms: seq<Message>): bytes
    requires forall i :: 0 <= i < |ms| ==> Sendable(ms[i])
  {
    if ms == [] then [] else Serialize(ms[0]) + SerializeAll(ms[1..])
  }

  // ---------- Parsing ----------

  /** The size checks and field reads of `handleMessage`; `None` closes the connection. */
  function ParseBody(kind: byte, payload: bytes): Option<Message> {
    if kind == MT_CHOKE then if |payload| != 0 then None else Some(Choke)
    else if kind == MT_UNCHOKE then if |payload| != 0 then None else Some(UnChoke)
    else if kind == MT_INTERESTED then if |payload| != 0 then None else Some(Interested)
    else if kind == MT_NOT_INTERESTED then if |payload| != 0 then None else Some(NotInterested)
    else if kind == MT_HAVE then if |payload| != 4 then None else Some(Have(ReadBE32(payload, 0)))
    else if kind == MT_BITFIELD then if |payload| < 1 then None else Some(Bitfield(payload))
    else if kind == MT_REQUEST then
      if |payload| != 12 then None
      else Some(Request(ReadBE32(payload, 0), ReadBE32(payload, 4), ReadBE32(payload, 8)))
    else if kind == MT_PIECE_BLOCK then
      if |payload| < 9 then None
      else Some(PieceBlock(ReadBE32(payload, 0), ReadBE32(payload, 4), payload[8..]))
    else if kind == MT_CANCEL then
      if |payload| != 12 then None
      else Some(Cancel(ReadBE32(payload, 0), ReadBE32(payload, 4), ReadBE32(payload, 8)))
    else if kind == MT_PORT then
      if |payload| != 2 then None else Some(Port(FromBE16(payload[0], payload[1])))
    else Some(Unknown(kind, payload))
  }

  /** The messages read from a stream so far, the bytes of an incomplete frame, and whether a bad frame closed it. */
  datatype Stream = Stream(messages: seq<Message>, rest: bytes, closed: bool)

  /** `handle` and the reads it schedules: four bytes of length, then that many bytes of message. */
  function ParseStream(s: bytes): Stream
    decreases |s|
  {
    if |s| < 4 then Stream([], s, false)
    else
      var length := ReadBE32(s, 0);
      if length == 0 then Prepend(KeepAlive, ParseStream(s[4..]))
      else if |s| < 4 + length then Stream([], s, false)
      else
        var m := ParseBody(s[4], s[5..4 + length]);
        if m.None? then Stream([], s, true) else Prepend(m.value, ParseStream(s[4 + length..]))
  }

  function Prepend(m: Message, t: Stream): Stream {
    t.(messages := [m] + t.messages)
  }

  // ---------- Round trip ----------

  /** Messages the receiver accepts: a block or a bitfield must not be empty. */
  predicate NonEmpty(m: Message) {
    match m
    case Bitfield(bits) => bits != []
    case PieceBlock(_, _, block) => block != []
    case _ => true
  }

  lemma {:induction false} ReadsAt(pre: bytes, v: uint32, post: bytes)
    ensures ReadBE32(pre + BE32(v) + post, |pre|) == v
  {
    BE32At(v, pre, post);
  }

  lemma {:induction false} ThreeFields(i: uint32, b: uint32, l: uint32)
    ensures var p := BE32(i) + BE32(b) + BE32(l);
            |p| == 12 && ReadBE32(p, 0) == i && ReadBE32(p, 4) == b && ReadBE32(p, 8) == l
  {
    hide BE32, ReadBE32;
    var p := BE32(i) + BE32(b) + BE32(l);
    ReadsAt([], i, BE32(b) + BE32(l));
    assert [] + BE32(i) + (BE32(b) + BE32(l)) == p;
    ReadsAt(BE32(i), b, BE32(l));
    ReadsAt(BE32(i) + BE32(b), l, []);
    assert BE32(i) + BE32(b) + BE32(l) + [] == p;
  }

  lemma {:induction false} TwoFields(i: uint32, b: uint32, block: bytes)
    ensures var p := BE32(i) + BE32(b) + block;
            |p| == 8 + |block| && ReadBE32(p, 0) == i && ReadBE32(p, 4) == b && p[8..] == block
  {
    hide BE32, ReadBE32;
    var p := BE32(i) + BE32(b) + block;
    ReadsAt([], i, BE32(b) + block);
    assert [] + BE32(i) + (BE32(b) + block) == p;
    ReadsAt(BE32(i), b, block);
  }

  lemma {:induction false} OneField(i: uint32)
    ensures ReadBE32(BE32(i), 0) == i
  {
    hide BE32, ReadBE32;
    ReadsAt([], i, []);
    assert [] + BE32(i) + [] == BE32(i);
  }

  // The three messages with an index, an offset and a size or a block.
  lemma {:induction false} FieldsRoundTrip(m: Message)
    requires Sendable(m) && (m.Request? || m.Cancel? || m.PieceBlock?)
    ensures Body(m) != []
    ensures ParseBody(Body(m)[0], Body(m)[1..]) == if NonEmpty(m) then Some(m) else None
  {
    hide BE32, ReadBE32;
    match m
    case Request(i, b, l) =>
      ThreeFields(i, b, l);
      assert Body(m)[1..] == BE32(i) + BE32(b) + BE32(l);
    case PieceBlock(i, b, block) =>
      TwoFields(i, b, block);
      assert Body(m)[1..] == BE32(i) + BE32(b) + block;
    case Cancel(i, b, l) =>
      ThreeFields(i, b, l);
      assert Body(m)[1..] == BE32(i) + BE32(b) + BE32(l);
  }

  lemma {:induction false} ShortRoundTrip(m: Message)
    requires Sendable(m) && !m.KeepAlive? && !m.Request? && !m.Cancel? && !m.PieceBlock?
    ensures Body(m) != []
    ensures ParseBody(Body(m)[0], Body(m)[1..]) == if NonEmpty(m) then Some(m) else None
  {
    hide BE32, ReadBE32;
    match m
    case Have(i) =>
      OneField(i);
      assert Body(m)[1..] == BE32(i);
    case Bitfield(bits) =>
      assert Body(m)[1..] == bits;
    case _ =>
  }

  /** The receiver reads back what was sent, or rejects it, exactly according to `NonEmpty`. */
  lemma {:induction false} BodyRoundTrip(m: Message)
    requires Sendable(m) && !m.KeepAlive?
    ensures Body(m) != []
    ensures ParseBody(Body(m)[0], Body(m)[1..]) == if NonEmpty(m) then Some(m) else None
  {
    hide *;
    if m.Request? || m.Cancel? || m.PieceBlock? {
      FieldsRoundTrip(m);
    } else {
      ShortRoundTrip(m);
    }
  }

  // A whole frame at the start of a stream.
  lemma {:induction false} FrameAtStart(m: Message, rest: bytes)
    requires Sendable(m)
    ensures var s := Serialize(m) + rest;
            && |s| == 4 + |Body(m)| + |rest| && ReadBE32(s, 0) == |Body(m)|
            && s[4..4 + |Body(m)|] == Body(m) && s[4 + |Body(m)|..] == rest
  {
    hide BE32, ReadBE32, Body;
    BodySize(m);
    var s := Serialize(m) + rest;
    assert s == [] + BE32(|Body(m)|) + (Body(m) + rest);
    ReadsAt([], |Body(m)|, Body(m) + rest);
  }

  /** One frame: parsing yields the message and goes on behind it; an empty block or bitfield closes the stream. */
  lemma {:induction false} FrameRoundTrip(m: Message, rest: bytes)
    requires Sendable(m)
    ensures ParseStream(Serialize(m) + rest)
         == if NonEmpty(m) then Prepend(m, ParseStream(rest)) else Stream([], Serialize(m) + rest, true)
  {
    hide ReadBE32, Body, ParseBody, Serialize;
    BodySize(m);
    FrameAtStart(m, rest);
    var s := Serialize(m) + rest;
    if m.KeepAlive? {
      assert s[4..] == rest;
    } else {
      BodyRoundTrip(m);
      assert s[4] == s[4..4 + |Body(m)|][0];
      assert s[5..4 + |Body(m)|] == s[4..4 + |Body(m)|][1..];
    }
  }

  /** Messages serialized one behind the other parse back, and parsing goes on behind them with whatever follows. */
  lemma {:induction false} StreamContinues(ms: seq<Message>, tail: bytes)
    requires forall i :: 0 <= i < |ms| ==> Sendable(ms[i]) && NonEmpty(ms[i])
    ensures var t := ParseStream(tail);
            ParseStream(SerializeAll(ms) + tail) == Stream(ms + t.messages, t.rest, t.closed)
    decreases |ms|
  {
    hide Serialize, ParseStream;
    var t := ParseStream(tail);
    if ms == [] {
      assert SerializeAll(ms) + tail == tail && ms + t.messages == t.messages;
    } else {
      assert SerializeAll(ms) + tail == Serialize(ms[0]) + (SerializeAll(ms[1..]) + tail);
      FrameRoundTrip(ms[0], SerializeAll(ms[1..]) + tail);
      StreamContinues(ms[1..], tail);
      assert [ms[0]] + (ms[1..] + t.messages) == ms + t.messages;
    }
  }

  /** Any list of messages, serialized one behind the other, parses back to the same list, with nothing left over. */
  lemma {:induction false} StreamRoundTrip(ms: seq<Message>)
    requires forall i :: 0 <= i < |ms| ==> Sendable(ms[i]) && NonEmpty(ms[i])
    ensures ParseStream(SerializeAll(ms)) == Stream(ms, [], false)
  {
    NothingToRead();
    StreamContinues(ms, []);
    assert SerializeAll(ms) + [] == SerializeAll(ms) && ms + [] == ms;
    hide ParseStream, SerializeAll;
  }

  lemma {:induction false} NothingToRead()
    ensures ParseStream([]) == Stream([], [], false)
  {
  }

  // A frame cut short leaves the receiver waiting.
  lemma {:induction false} CutFrame(m: Message, n: nat)
    requires Sendable(m) && n < |Serialize(m)|
    ensures ParseStream(Serialize(m)[..n]) == Stream([], Serialize(m)[..n], false)
  {
    hide ReadBE32, Body, ParseBody;
    BodySize(m);
    FrameAtStart(m, []);
    var s := Serialize(m);
    assert s + [] == s;
    var t := s[..n];
    if n >= 4 {
      CutRead(s, t);
    }
  }

  lemma {:induction false} CutRead(s: bytes, t: bytes)
    requires 4 <= |t| <= |s| && t == s[..|t|]
    ensures ReadBE32(t, 0) == ReadBE32(s, 0)
  {
    assert t[0] == s[0] && t[1] == s[1] && t[2] == s[2] && t[3] == s[3];
  }

  /**
   Wherever the stream is cut, the receiver has parsed exactly the messages whose frames arrived
   whole, and holds the bytes of the next frame: no cut can make two message lists look alike.
   */
  lemma {:induction false} CutStream(ms: seq<Message>, n: nat) returns (k: nat)
    requires forall i :: 0 <= i < |ms| ==> Sendable(ms[i]) && NonEmpty(ms[i])
    requires n <= |SerializeAll(ms)|
    ensures k <= |ms|
    ensures var t := ParseStream(SerializeAll(ms)[..n]);
            && t.messages == ms[..k] && !t.closed
            && SerializeAll(ms[..k]) + t.rest == SerializeAll(ms)[..n]
            && (k < |ms| ==> |t.rest| < |Serialize(ms[k])|)
    decreases |ms|
  {
    hide Serialize, ParseStream;
    if ms == [] {
      NothingToRead();
      return 0;
    }
    var all, first := SerializeAll(ms), Serialize(ms[0]);
    if n < |first| {
      CutFrame(ms[0], n);
      assert all[..n] == first[..n];
      assert SerializeAll(ms[..0]) == [];
      return 0;
    }
    var j := CutStream(ms[1..], n - |first|);
    assert all[..n] == first + SerializeAll(ms[1..])[..n - |first|];
    FrameRoundTrip(ms[0], SerializeAll(ms[1..])[..n - |first|]);
    k := j + 1;
    assert ms[..k] == [ms[0]] + ms[1..][..j];
    assert ms[..k][1..] == ms[1..][..j];
  }

  // ---------- The table of messages ----------

  /** The number in four bytes, the most significant first. */
  function Number(f: bytes, at: nat): int
    requires at + 4 <= |f|
  {
    0x100_0000 * (f[at] as int) + 0x1_0000 * (f[at + 1] as int) + 0x100 * (f[at + 2] as int) + f[at + 3]
  }

  lemma {:induction false} NumberIs(f: bytes, at: nat)
    requires at + 4 <= |f|
    ensures Number(f, at) == ReadBE32(f, at)
  {
  }

  /** Every frame: four bytes of length, the number of the message, and its fields in their order and places. */
  lemma {:induction false} FrameTable(m: Message)
    requires Sendable(m)
    ensures var f := Serialize(m);
            && |f| >= 4 && Number(f, 0) == |f| - 4
            && match m
               case KeepAlive => f == [0, 0, 0, 0]
               case Choke => f == [0, 0, 0, 1, 0]
               case UnChoke => f == [0, 0, 0, 1, 1]
               case Interested => f == [0, 0, 0, 1, 2]
               case Have(i) => |f| == 9 && f[4] == 4 && Number(f, 5) == i
               case Bitfield(bits) => |f| >= 5 && f[4] == 5 && f[5..] == bits
               case Request(i, b, l) =>
                 |f| == 17 && f[4] == 6 && Number(f, 5) == i && Number(f, 9) == b && Number(f, 13) == l
               case PieceBlock(i, b, block) =>
                 |f| >= 13 && f[4] == 7 && Number(f, 5) == i && Number(f, 9) == b && f[13..] == block
               case Cancel(i, b, l) =>
                 |f| == 17 && f[4] == 8 && Number(f, 5) == i && Number(f, 9) == b && Number(f, 13) == l
  {
    hide *;
    var f, body := Serialize(m), Body(m);
    FrameIsBody(m);
    BodyFields(m);
    match m
    case Have(i) => FieldBehind(f, body, 1);
    case Bitfield(bits) => RestBehind(f, body, 1);
    case Request(i, b, l) => FieldsBehind(f, body);
    case PieceBlock(i, b, block) =>
      FieldBehind(f, body, 1);
      FieldBehind(f, body, 5);
      RestBehind(f, body, 9);
    case Cancel(i, b, l) => FieldsBehind(f, body);
    case _ =>
  }

  lemma {:induction false} FrameIsBody(m: Message)
    requires Sendable(m)
    ensures var f := Serialize(m);
            && |f| >= 4 && Number(f, 0) == |f| - 4 == |Body(m)| && f[4..] == Body(m)
            && (Body(m) != [] ==> f[4] == Body(m)[0])
            && (Body(m) == [] ==> f == [0, 0, 0, 0])
            && (|Body(m)| == 1 ==> f == [0, 0, 0, 1] + Body(m))
    ensures !m.NotInterested? && !m.Port? && !m.Unknown?
  {
    hide *;
    var f := Serialize(m);
    FrameAtStart(m, []);
    assert f + [] == f;
    NumberIs(f, 0);
    PrefixAndBody(m);
    SmallLength();
  }

  lemma {:induction false} PrefixAndBody(m: Message)
    requires Sendable(m)
    ensures |Body(m)| < TWO32 && Serialize(m) == BE32(|Body(m)|) + Body(m)
    ensures !m.NotInterested? && !m.Port? && !m.Unknown?
  {
    BodySize(m);
    hide BE32, Body;
  }

  lemma {:induction false} SmallLength()
    ensures BE32(0) == [0, 0, 0, 0] && BE32(1) == [0, 0, 0, 1]
  {
  }

  lemma {:induction false} BodyFields(m: Message)
    requires Sendable(m)
    ensures var f := Body(m);
            match m
            case KeepAlive => f == []
            case Choke => f == [0]
            case UnChoke => f == [1]
            case Interested => f == [2]
            case Have(i) => |f| == 5 && f[0] == 4 && ReadBE32(f, 1) == i
            case Bitfield(bits) => |f| >= 1 && f[0] == 5 && f[1..] == bits
            case Request(i, b, l) =>
              |f| == 13 && f[0] == 6 && ReadBE32(f, 1) == i && ReadBE32(f, 5) == b && ReadBE32(f, 9) == l
            case PieceBlock(i, b, block) =>
              |f| >= 9 && f[0] == 7 && ReadBE32(f, 1) == i && ReadBE32(f, 5) == b && f[9..] == block
            case Cancel(i, b, l) =>
              |f| == 13 && f[0] == 8 && ReadBE32(f, 1) == i && ReadBE32(f, 5) == b && ReadBE32(f, 9) == l
  {
    hide BE32;
    match m
    case Have(i) => OneField(i);
    case Request(i, b, l) => ThreeFields(i, b, l);
    case PieceBlock(i, b, block) => TwoFields(i, b, block);
    case Cancel(i, b, l) => ThreeFields(i, b, l);
    case _ =>
  }

  // The fields of a body, seen from the start of its frame.
  lemma {:induction false} FieldBehind(f: bytes, body: bytes, at: nat)
    requires |f| >= 4 && f[4..] == body && at + 4 <= |body|
    ensures Number(f, 4 + at) == ReadBE32(body, at)
  {
    NumberIs(body, at);
    assert f[4 + at] == body[at] && f[4 + at + 1] == body[at + 1] && f[4 + at + 2] == body[at + 2] && f[4 + at + 3] == body[at + 3];
  }

  lemma {:induction false} FieldsBehind(f: bytes, body: bytes)
    requires |f| >= 4 && f[4..] == body && |body| == 13
    ensures Number(f, 5) == ReadBE32(body, 1) && Number(f, 9) == ReadBE32(body, 5) && Number(f, 13) == ReadBE32(body, 9)
  {
    hide *;
    FieldBehind(f, body, 1);
    FieldBehind(f, body, 5);
    FieldBehind(f, body, 9);
  }

  lemma {:induction false} RestBehind(f: bytes, body: bytes, at: nat)
    requires |f| >= 4 && f[4..] == body && at <= |body|
    ensures f[4 + at..] == body[at..]
  {
  }

  /** Which messages are rejected: exactly those of a known kind and a wrong size. */
  lemma {:induction false} RejectedIff(kind: byte, payload: bytes)
    ensures ParseBody(kind, payload).None? <==>
              || (kind in [0, 1, 2, 3] && |payload| != 0)
              || (kind == 4 && |payload| != 4)
              || (kind == 5 && |payload| < 1)
              || (kind in [6, 8] && |payload| != 12)
              || (kind == 7 && |payload| < 9)
              || (kind == 9 && |payload| != 2)
  {
  }

  lemma {:induction false} ReadBytes(s: bytes, at: nat)
    requires at + 4 <= |s|
    ensures BE32(ReadBE32(s, at)) == s[at..at + 4]
  {
    BE32Bytes(s[at], s[at + 1], s[at + 2], s[at + 3]);
    hide BE32, FromBE32;
  }

  /** A message read is the one whose frame this is; the three kinds without a `send` function are told by their number. */
  lemma {:induction false} ReadIsWritten(kind: byte, payload: bytes)
    requires ParseBody(kind, payload).Some? && 1 + |payload| < TWO32
    ensures var m := ParseBody(kind, payload).value;
            if Sendable(m) then !m.KeepAlive? && Body(m) == [kind] + payload
            else match m
              case NotInterested => kind == 3
              case Port(port) => kind == 9 && port == 0x100 * (payload[0] as int) + payload[1]
              case Unknown(k, p) => kind > 9 && k == kind && p == payload
  {
    hide BE32, ReadBE32;
    if kind == 4 {
      ReadBytes(payload, 0);
      assert payload == payload[0..4];
    } else if kind == 6 || kind == 8 {
      ReadBytes(payload, 0);
      ReadBytes(payload, 4);
      ReadBytes(payload, 8);
      assert payload == payload[0..4] + payload[4..8] + payload[8..12];
    } else if kind == 7 {
      ReadBytes(payload, 0);
      ReadBytes(payload, 4);
      assert payload == payload[0..4] + payload[4..8] + payload[8..];
    }
  }

  /** A frame that is rejected closes the connection, and nothing behind it is read. */
  lemma {:induction false} BadFrameCloses(length: uint32, kind: byte, payload: bytes, rest: bytes)
    requires length == 1 + |payload| && ParseBody(kind, payload).None?
    ensures var t := ParseStream(BE32(length) + ([kind] + payload) + rest); t.messages == [] && t.closed
  {
    hide *;
    var s := BE32(length) + ([kind] + payload) + rest;
    BadFrameShape(length, kind, payload, rest);
    BadFrameStops(s);
  }

  lemma {:induction false} BadFrameShape(length: uint32, kind: byte, payload: bytes, rest: bytes)
    requires length == 1 + |payload|
    ensures var s := BE32(length) + ([kind] + payload) + rest;
            |s| >= 4 + length && ReadBE32(s, 0) == length && s[4] == kind && s[5..4 + length] == payload
  {
    var s := BE32(length) + ([kind] + payload) + rest;
    BE32At(length, [], [kind] + payload + rest);
    hide BE32, ReadBE32;
    assert [] + BE32(length) + ([kind] + payload + rest) == s;
  }

  lemma {:induction false} BadFrameStops(s: bytes)
    requires |s| >= 4 && |s| >= 4 + ReadBE32(s, 0) > 4
    requires ParseBody(s[4], s[5..4 + ReadBE32(s, 0)]).None?
    ensures ParseStream(s) == Stream([], s, true)
  {
    hide ParseBody, ReadBE32;
  }

  // ---------- Message buffers ----------

  /** `OutputMessage` in big-endian order. */
  class OutputMessage {
    const buffer: DataBuffer<byte>
    var pos: nat

    ghost predicate Valid()
      reads this, buffer
    {
      buffer.Valid() && pos == buffer.size && buffer.buffer.Length > 0
    }

    /** The bytes `Connection::write` takes from the message. */
    ghost function Data(): bytes
      requires Valid()
      reads this, buffer, buffer.buffer
    {
      buffer.buffer[..pos]
    }

    constructor (fixedSize: nat)
      ensures Valid() && Data() == [] && fresh(buffer) && fresh(buffer.buffer)
      ensures pos == 0 && buffer.buffer.Length == if fixedSize != 0 then fixedSize else 64
    {
      buffer := new DataBuffer<byte>(if fixedSize != 0 then fixedSize else 64);
      pos := 0;
    }

    method AddByte(b: byte)
      requires Valid()
      modifies this`pos, buffer, buffer.buffer
      ensures Valid() && Data() == old(Data()) + [b] && pos == old(pos) + 1
      ensures if old(pos) + 1 <= old(buffer.buffer.Length) then buffer.buffer == old(buffer.buffer) else fresh(buffer.buffer)
    {
      buffer.Grow(buffer.size + 1);
      assert buffer.buffer[..pos] == old(Data());
      buffer.buffer[pos] := b;
      pos := pos + 1;
    }

    /**
     `addBytes`: the address of the destination is checked by an assertion of the buffer, so
     adding no bytes to a full buffer stops the program. Nothing has changed then.
     */
    method AddBytes(s: bytes) returns (halted: bool)
      requires Valid()
      modifies this`pos, buffer, buffer.buffer
      ensures Valid() && halted == (s == [] && old(pos) == old(buffer.buffer.Length))
      ensures Data() == old(Data()) + s && pos == old(pos) + |s|
      ensures if old(pos) + |s| <= old(buffer.buffer.Length) then buffer.buffer == old(buffer.buffer) else fresh(buffer.buffer)
    {
      buffer.Grow(buffer.size + |s|);
      assert buffer.buffer[..pos] == old(Data());
      halted := pos >= buffer.buffer.Length;
      if halted {
        return;
      }
      forall k | 0 <= k < |s| {
        buffer.buffer[pos + k] := s[k];
      }
      forall k | pos <= k < pos + |s|
        ensures buffer.buffer[k] == s[k - pos]
      {
        assert buffer.buffer[pos + (k - pos)] == s[k - pos];
      }
      assert buffer.buffer[..pos] == old(Data());
      assert buffer.buffer[pos..pos + |s|] == s;
      pos := pos + |s|;
    }

    method AddU32(v: uint32)
      requires Valid()
      modifies this`pos, buffer, buffer.buffer
      ensures Valid() && Data() == old(Data()) + BE32(v) && pos == old(pos) + 4
      ensures if old(pos) + 4 <= old(buffer.buffer.Length) then buffer.buffer == old(buffer.buffer) else fresh(buffer.buffer)
    {
      buffer.Grow(buffer.size + 4);
      assert buffer.buffer[..pos] == old(Data());
      var b := BE32(v);
      buffer.buffer[pos] := b[0];
      buffer.buffer[pos + 1] := b[1];
      buffer.buffer[pos + 2] := b[2];
      buffer.buffer[pos + 3] := b[3];
      assert buffer.buffer[..pos] == old(Data());
      assert buffer.buffer[pos..pos + 4] == b;
      pos := pos + 4;
    }
  }

  /** `InputMessage` in big-endian order, over the payload of one frame. */
  class InputMessage {
    const data: bytes
    var pos: nat

    constructor (payload: bytes)
      ensures data == payload && pos == 0
    {
      data := payload;
      pos := 0;
    }

    /** `getU32`: the caller has checked that four bytes are left. */
    method GetU32() returns (v: uint32)
      requires pos + 4 <= |data|
      modifies this`pos
      ensures v == ReadBE32(data, old(pos)) && pos == old(pos) + 4
    {
      v := ReadBE32(data, pos);
      pos := pos + 4;
    }

    method GetU16() returns (v: nat)
      requires pos + 2 <= |data|
      modifies this`pos
      ensures v == FromBE16(data[old(pos)], data[old(pos) + 1]) && pos == old(pos) + 2
    {
      v := FromBE16(data[pos], data[pos + 1]);
      pos := pos + 2;
    }

    /** `getBuffer(size)`: a copy of the next bytes, without moving on; null if there are not enough. */
    method GetBuffer(size: nat) returns (r: Option<bytes>)
      ensures r == if pos + size > |data| then None else Some(data[pos..pos + size])
    {
      if pos + size > |data| {
        return None;
      }
      return Some(data[pos..pos + size]);
    }
  }

  /** The outgoing side of a connection. */
  class Connection {
    var written: bytes

    constructor ()
      ensures written == []
    {
      written := [];
    }

    method Write(s: bytes)
      modifies this
      ensures written == old(written) + s
    {
      written := written + s;
    }

    method WriteMessage(o: OutputMessage)
      requires o.Valid()
      modifies this
      ensures written == old(written) + o.Data()
    {
      written := written + o.buffer.buffer[..o.pos];
    }

    // ---------- The `send` functions ----------

    method SendKeepAlive()
      modifies this
      ensures written == old(written) + Serialize(KeepAlive)
    {
      Write([0, 0, 0, 0]);
    }

    method SendChoke()
      modifies this
      ensures written == old(written) + Serialize(Choke)
    {
      Write([0, 0, 0, 1, MT_CHOKE]);
    }

    method SendUnchoke()
      modifies this
      ensures written == old(written) + Serialize(UnChoke)
    {
      Write([0, 0, 0, 1, MT_UNCHOKE]);
    }

    method SendInterested()
      modifies this
      ensures written == old(written) + Serialize(Interested)
    {
      Write([0, 0, 0, 1, MT_INTERESTED]);
    }

    // The frames in the order the senders add their fields.
    static lemma {:induction false} FieldOrder(index: uint32, begin: uint32, length: uint32, block: bytes)
      requires 9 + |block| < TWO32
      ensures Serialize(Have(index)) == BE32(5) + [MT_HAVE] + BE32(index)
      ensures Serialize(Request(index, begin, length)) == BE32(13) + [MT_REQUEST] + BE32(index) + BE32(begin) + BE32(length)
      ensures Serialize(Cancel(index, begin, length)) == BE32(13) + [MT_CANCEL] + BE32(index) + BE32(begin) + BE32(length)
      ensures Serialize(PieceBlock(index, begin, block))
           == BE32(9 + |block|) + [MT_PIECE_BLOCK] + BE32(index) + BE32(begin) + block
    {
      hide BE32;
      var i, b, l := BE32(index), BE32(begin), BE32(length);
      assert BE32(13) + ([MT_REQUEST] + i + b + l) == BE32(13) + [MT_REQUEST] + i + b + l;
      assert BE32(13) + ([MT_CANCEL] + i + b + l) == BE32(13) + [MT_CANCEL] + i + b + l;
      assert BE32(9 + |block|) + ([MT_PIECE_BLOCK] + i + b + block) == BE32(9 + |block|) + [MT_PIECE_BLOCK] + i + b + block;
    }

    static lemma {:induction false} BitfieldOrder(bits: bytes)
      requires 1 + |bits| < TWO32
      ensures Serialize(Bitfield(bits)) == BE32(1 + |bits|) + [MT_BITFIELD] + bits
    {
      hide BE32;
    }

    method SendHave(index: uint32)
      modifies this
      ensures written == old(written) + Serialize(Have(index))
    {
      hide BE32, Body, Serialize;
      FieldOrder(index, 0, 0, []);
      var out := new OutputMessage(9);
      out.AddU32(5);
      out.AddByte(MT_HAVE);
      out.AddU32(index);
      WriteMessage(out);
    }

    /** Stops at an assertion before anything is written iff there is nothing to send. */
    method SendBitfield(bits: bytes) returns (halted: bool)
      requires 1 + |bits| < TWO32
      modifies this
      ensures halted == (bits == [])
      ensures written == old(written) + if halted then [] else Serialize(Bitfield(bits))
    {
      hide BE32, Body, Serialize;
      BitfieldOrder(bits);
      var out := new OutputMessage(5 + |bits|);
      out.AddU32(1 + |bits|);
      out.AddByte(MT_BITFIELD);
      halted := out.AddBytes(bits);
      if halted {
        return;
      }
      WriteMessage(out);
    }

    /** Stops at an assertion before anything is written iff there is nothing to send. */
    method SendPieceBlock(index: uint32, begin: uint32, block: bytes) returns (halted: bool)
      requires 9 + |block| < TWO32
      modifies this
      ensures halted == (block == [])
      ensures written == old(written) + if halted then [] else Serialize(PieceBlock(index, begin, block))
    {
      hide BE32, Body, Serialize;
      FieldOrder(index, begin, 0, block);
      var out := new OutputMessage(13 + |block|);
      out.AddU32(9 + |block|);
      out.AddByte(MT_PIECE_BLOCK);
      out.AddU32(index);
      out.AddU32(begin);
      halted := out.AddBytes(block);
      if halted {
        return;
      }
      WriteMessage(out);
    }

    method SendRequest(index: uint32, begin: uint32, length: uint32)
      modifies this
      ensures written == old(written) + Serialize(Request(index, begin, length))
    {
      hide BE32, Body, Serialize;
      FieldOrder(index, begin, length, []);
      var out := new OutputMessage(17);
      out.AddU32(13);
      out.AddByte(MT_REQUEST);
      out.AddU32(index);
      out.AddU32(begin);
      out.AddU32(length);
      WriteMessage(out);
    }

    method SendCancel(index: uint32, begin: uint32, length: uint32)
      modifies this
      ensures written == old(written) + Serialize(Cancel(index, begin, length))
    {
      hide BE32, Body, Serialize;
      FieldOrder(index, begin, length, []);
      var out := new OutputMessage(17);
      out.AddU32(13);
      out.AddByte(MT_CANCEL);
      out.AddU32(index);
      out.AddU32(begin);
      out.AddU32(length);
      WriteMessage(out);
    }
  }
}
