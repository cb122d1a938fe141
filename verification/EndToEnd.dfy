/**
 The parts put together: from the metainfo file to a well-formed torrent, from the blocks of a
 piece on the wire to its bytes in the files, and from the last piece to the finished download.
 */
module EndToEnd {
  import opened Bytes
  import opened Wrappers
  import opened Layout
  import opened Pieces
  import B = BencodeSpec
  import M = MetaInfo
  import P = PeerProtocol
  import Peers
  import S = StoreProtocol
  import SP = StoreProgress
  import W = Wire

  // ---------- From the metainfo file to the torrent ----------

  /** The torrent described by a decoded metainfo map: what the parser leaves for the file manager. */
  function TorrentOf(dict: seq<B.Entry>, hashOK: (nat, bytes) -> bool): Meta {
    var info := M.AsDict(B.Lookup(dict, M.INFO));
    Meta(M.AsUint(B.Lookup(info, Ascii("piece length"))),
         M.LayOut(M.TorrentMeta.Lengths(info)),
         (|M.AsStr(B.Lookup(info, Ascii("pieces")))| + 19) / 20,
         hashOK)
  }

  /** The total length of the files named by a metainfo map. */
  function NamedBytes(dict: seq<B.Entry>): nat {
    M.SumOf(M.TorrentMeta.Lengths(M.AsDict(B.Lookup(dict, M.INFO))))
  }

  /** A parsed object holds exactly this torrent; its size field is right as long as the total fits `size_t`. */
  lemma {:induction false} ParsedIsTorrent(meta: M.TorrentMeta, dict: seq<B.Entry>, past: nat -> byte, hashOK: (nat, bytes) -> bool)
    requires meta.ParsedAs(dict, past)
    ensures var m := TorrentOf(dict, hashOK);
            && meta.files == m.files && meta.pieceLength == m.pieceLength && |meta.sha1sums| == m.numPieces
            && (meta.totalSize == m.Total() <==> NamedBytes(dict) < B.TWO64)
  {
    M.LayOutTotal(M.TorrentMeta.Lengths(M.AsDict(B.Lookup(dict, M.INFO))));
    M.LayOutContiguous(M.TorrentMeta.Lengths(M.AsDict(B.Lookup(dict, M.INFO))));
    hide Ascii, M.LayOut, M.SumOf, M.Sums, B.Lookup, B.Encode, M.TorrentMeta.Lengths;
  }

  /**
   When a metainfo map describes a torrent the piece store works for, checked on the map alone.
   The parser tests none of these conditions beyond a non-zero `length`.
   */
  predicate Usable(dict: seq<B.Entry>) {
    var info := M.AsDict(B.Lookup(dict, M.INFO));
    var ls := M.TorrentMeta.Lengths(info);
    var pieceLength := M.AsUint(B.Lookup(info, Ascii("piece length")));
    && pieceLength > 0
    && ls != [] && NamedBytes(dict) > 0
    && M.SumOf(ls[..|ls| - 1]) < B.TWO64
    && (|M.AsStr(B.Lookup(info, Ascii("pieces")))| + 19) / 20 == CeilDiv(NamedBytes(dict), pieceLength)
  }

  /** The premises of the piece store hold of a parsed torrent iff its metainfo map is usable. */
  lemma {:induction false} WellFormedIff(dict: seq<B.Entry>, hashOK: (nat, bytes) -> bool)
    ensures WellFormed(TorrentOf(dict, hashOK)) <==> Usable(dict)
  {
    var info := M.AsDict(B.Lookup(dict, M.INFO));
    var ls := M.TorrentMeta.Lengths(info);
    M.LayOutTotal(ls);
    M.LayOutContiguous(ls);
    assert ls == [] ==> M.SumOf(ls) == 0;
    hide Ascii, M.LayOut, M.SumOf, B.Lookup, CeilDiv, M.TorrentMeta.Lengths, Contiguous, TotalLength;
  }

  // ---------- From the wire to the disk ----------

  /** What a peer knows of the torrent. */
  function SettingsOf(m: Meta, max: nat): P.Settings
    requires m.pieceLength > 0
  {
    P.Settings(max, m.numPieces, i => PieceLength(m, i))
  }

  /** A torrent of at most 2^32 pieces of less than 2^32 bytes. */
  predicate FitsProtocol(m: Meta) {
    m.numPieces <= W.TWO32 && m.pieceLength < W.TWO32
  }

  lemma {:induction false} SettingsValid(m: Meta, max: nat)
    requires WellFormed(m) && FitsProtocol(m) && max > 0
    ensures P.Valid(SettingsOf(m, max))
  {
    forall i: nat | i < m.numPieces
      ensures 0 < PieceLength(m, i) < W.TWO32
    {
      PieceFits(m, i);
    }
  }

  lemma {:induction false} SettingsPiece(m: Meta, max: nat, i: nat)
    requires m.pieceLength > 0
    ensures SettingsOf(m, max).pieceSize(i) == PieceLength(m, i)
    ensures SettingsOf(m, max).totalPieces == m.numPieces && SettingsOf(m, max).max == max
  {
  }

  /**
   The bytes `data` that arrive after piece `i` was handed out: the messages they parse to, of
   whatever kind, carry as many true blocks of the piece as it has slots, in any order and
   among any others, and none of the others closes the connection before the last of them. What
   follows the last whole frame may be cut off or malformed.
   */
  ghost predicate Carries(m: Meta, max: nat, st: P.PeerState, i: nat, piece: bytes, data: bytes, answers: nat -> P.Answers)
    requires m.pieceLength > 0 && max > 0
  {
    var e, inputs := SettingsOf(m, max), Received(data, answers);
    && P.Arrivals(e, i, piece, inputs)
    && |P.Slots(max, i, inputs)| == P.NumBlocks(e, i)
    && P.OpenFor(e, P.RequestNext(e, st, Some(i)).state, i, inputs, P.NumBlocks(e, i))
  }

  /** The messages a stream parses to, with the answers of the rest of the client. */
  function Received(data: bytes, answers: nat -> P.Answers): seq<P.Input> {
    Peers.Inputs(W.ParseStream(data).messages, answers, 0)
  }

  /** No two of the blocks carried are for the same slot. */
  predicate NoneRepeated(max: nat, i: nat, data: bytes, answers: nat -> P.Answers)
    requires max > 0
  {
    P.AllDifferent(P.Slots(max, i, Received(data, answers)))
  }

  /** The pieces with index `i` handed over while the peer reads `data`, after that piece was handed out to it. */
  function HandedOver(m: Meta, max: nat, st: P.PeerState, i: nat, data: bytes, answers: nat -> P.Answers): seq<bytes>
    requires m.pieceLength > 0 && max > 0
  {
    var e := SettingsOf(m, max);
    P.Delivered(Peers.RunStream(e, P.RequestNext(e, st, Some(i)).state, data, answers, 0).delivered, i)
  }

  /**
   Reassembly from the bytes on the wire: a piece that is not queued is handed out, queued and
   requested, and its blocks arrive. Then it is handed over exactly once, and what is handed over
   is the true piece iff no block was a repetition.
   */
  lemma {:induction false} ReassembledFromWire(m: Meta, max: nat, st: P.PeerState, i: nat, piece: bytes, data: bytes,
                                               answers: nat -> P.Answers)
    requires WellFormed(m) && FitsProtocol(m) && max > 0
    requires i < m.numPieces && |piece| == PieceLength(m, i) && P.First(st.queue, i).None?
    requires Carries(m, max, st, i, piece, data, answers)
    ensures |HandedOver(m, max, st, i, data, answers)| == 1
    ensures HandedOver(m, max, st, i, data, answers) == [piece] <==> NoneRepeated(max, i, data, answers)
  {
    SettingsValid(m, max);
    SettingsPiece(m, max, i);
    P.RequestNextQueues(SettingsOf(m, max), st, i);
    hide SettingsOf, P.RequestNext, P.Run, P.Slots, P.Arrivals, P.OpenFor, P.First, P.NewPiece, P.NumBlocks, P.Delivered;
    hide W.ParseStream, WellFormed, PieceLength, P.AllDifferent, Peers.Inputs;
    var queued := P.RequestNext(SettingsOf(m, max), st, Some(i)).state;
    P.Reassembly(SettingsOf(m, max), queued, i, piece, Received(data, answers));
  }

  /**
   From the wire to the disk: the blocks of a piece arrive as above, none repeated; what the peer
   hands over is passed to `writePieceBlock` at state `a` of the piece store, while the piece is
   not pending; the call returns at state `b`. If the piece passes the hash check, then once the
   worker has moved `Ahead` times, whatever else is submitted meanwhile and in whatever order the
   threads move, its bit is set and it has been announced. The files hold the piece, unless it
   was accepted again; and in any case as long as no wrong data has passed the check.
   */
  lemma {:induction false} WireToDisk(m: Meta, max: nat, st: P.PeerState, i: nat, piece: bytes, data: bytes,
                                      answers: nat -> P.Answers,
                                      found: map<nat, bytes>, ss: seq<S.State>, a: nat, b: nat, c: nat, from: uint32)
    requires WellFormed(m) && FitsProtocol(m) && max > 0
    requires i < m.numPieces && m.hashOK(i, piece) && |piece| == PieceLength(m, i) && P.First(st.queue, i).None?
    requires Carries(m, max, st, i, piece, data, answers) && NoneRepeated(max, i, data, answers)
    requires S.Run(m, found, ss) && a < b <= c < |ss|
    requires ss[a].io.IoIdle? && i !in ss[a].pending
    requires forall d :: d in HandedOver(m, max, st, i, data, answers) ==>
               ss[a + 1] == S.Apply(m, ss[a], S.Submit(S.WriteRequest(i, from, d)))
    requires (forall k :: a < k < b ==> !ss[k].io.IoIdle?) && ss[b].io.IoIdle?
    requires SP.Moves(ss, b, c) >= SP.Ahead(m, ss[b], |ss[a].accepted|)
    ensures i in ss[c].completed && i in ss[c].announced && |ss[a].accepted| < |ss[c].accepted|
    ensures S.RightLengths(m, found, ss[c].accepted) && SP.NotAgain(ss[c], |ss[a].accepted|) ==>
              |ss[c].contents| == |m.files| && Holds(m.files, ss[c].contents, PieceBegin(m, i), piece)
    ensures forall truth :: S.TrueData(m, truth, found, ss[c].accepted) ==>
              |ss[c].contents| == |m.files| && Holds(m.files, ss[c].contents, PieceBegin(m, i), piece)
  {
    hide *;
    ReassembledFromWire(m, max, st, i, piece, data, answers);
    var w := S.WriteRequest(i, from, piece);
    EligiblePiece(m, ss[a].pending, w);
    assert piece in [piece];
    SP.IsSubmitted(m, ss, a, b, w);
    SP.SubmitReachesDisk(m, found, ss, a, b, c, w);
    forall truth | S.TrueData(m, truth, found, ss[c].accepted)
      ensures |ss[c].contents| == |m.files| && Holds(m.files, ss[c].contents, PieceBegin(m, i), piece)
    {
      SP.SubmitReachesTruth(m, truth, found, ss, a, b, c, w);
    }
  }

  /**
   And it can always be done: whatever the piece store is doing, as long as the I/O thread is idle
   and the piece is not pending, the run can go on so that the piece handed over is on disk.
   */
  lemma {:induction false} WireCanReachDisk(m: Meta, max: nat, st: P.PeerState, i: nat, piece: bytes, data: bytes,
                                            answers: nat -> P.Answers, found: map<nat, bytes>, ss: seq<S.State>, from: uint32)
    returns (ext: seq<S.State>)
    requires WellFormed(m) && FitsProtocol(m) && max > 0
    requires i < m.numPieces && m.hashOK(i, piece) && |piece| == PieceLength(m, i) && P.First(st.queue, i).None?
    requires Carries(m, max, st, i, piece, data, answers) && NoneRepeated(max, i, data, answers)
    requires ss != [] && S.Run(m, found, ss) && SP.Last(ss).io.IoIdle? && i !in SP.Last(ss).pending
    requires S.RightLengths(m, found, SP.Last(ss).accepted)
    ensures HandedOver(m, max, st, i, data, answers) == [piece]
    ensures ext != [] && S.Run(m, found, ss + ext) && |SP.Last(ext).contents| == |m.files|
    ensures Holds(m.files, SP.Last(ext).contents, PieceBegin(m, i), piece)
    ensures i in SP.Last(ext).completed && i in SP.Last(ext).announced
  {
    hide *;
    ReassembledFromWire(m, max, st, i, piece, data, answers);
    var w := S.WriteRequest(i, from, piece);
    EligiblePiece(m, SP.Last(ss).pending, w);
    OneMoreLength(m, found, SP.Last(ss).accepted, w);
    ext := SP.CanReachDisk(m, found, ss, w);
  }

  lemma {:induction false} OneMoreLength(m: Meta, found: map<nat, bytes>, acc: seq<S.WriteRequest>, w: S.WriteRequest)
    requires S.RightLengths(m, found, acc) && |w.data| == PieceLength(m, w.index)
    ensures S.RightLengths(m, found, acc + [w])
  {
    hide PieceLength;
  }

  lemma {:induction false} EligiblePiece(m: Meta, pending: set<nat>, w: S.WriteRequest)
    requires w.index < m.numPieces && w.index !in pending && m.hashOK(w.index, w.data)
    ensures S.Eligible(m, pending, w)
  {
  }

  /**
   Repeated blocks can make the counter run ahead, but they cannot get a wrong piece stored unless
   the check lets data of the wrong length pass: if all blocks for a piece are true ones, then
   whatever is handed over for it is the true piece iff it has the length of the piece.
   */
  lemma {:induction false} AcceptedIsTrue(m: Meta, max: nat, st: P.PeerState, i: nat, piece: bytes, inputs: seq<P.Input>, d: bytes)
    requires WellFormed(m) && FitsProtocol(m) && max > 0
    requires i < m.numPieces && |piece| == PieceLength(m, i)
    requires P.Genuine(SettingsOf(m, max), st.queue, i, piece) && P.TrueBlocks(max, i, piece, inputs)
    requires d in P.Delivered(P.Run(SettingsOf(m, max), st, inputs).delivered, i)
    ensures d == piece <==> |d| == PieceLength(m, i)
  {
    SettingsValid(m, max);
    SettingsPiece(m, max, i);
    hide SettingsOf, P.Run, P.Genuine, P.TrueBlocks, P.Delivered, WellFormed, PieceLength;
    P.DuplicatesOnlyShorten(SettingsOf(m, max), st, i, piece, inputs);
  }

  // ---------- The finished download ----------

  /** The file on disk has its full length and its part of `truth` as contents. */
  predicate FileIs(f: FileInfo, c: bytes, truth: bytes) {
    && |c| >= f.length
    && f.begin + f.length <= |truth|
    && c[..f.length] == truth[f.begin..f.begin + f.length]
  }

  ghost predicate Finished(m: Meta, cs: seq<bytes>, truth: bytes) {
    && |cs| == |m.files|
    && forall k :: 0 <= k < |m.files| ==> FileIs(m.files[k], cs[k], truth)
  }

  // The part of the image that belongs to file k.
  lemma {:induction false} ImageOfFile(fs: seq<FileInfo>, cs: seq<bytes>, k: nat)
    requires |fs| == |cs| && k < |fs|
    ensures TotalLength(fs[..k]) + fs[k].length <= TotalLength(fs)
    ensures Image(fs, cs)[TotalLength(fs[..k])..TotalLength(fs[..k]) + fs[k].length] == Padded(cs[k], fs[k].length)
    decreases |fs|
  {
    hide Padded;
    var last := |fs| - 1;
    var front := Image(fs[..last], cs[..last]);
    var back := Padded(cs[last], fs[last].length);
    assert Image(fs, cs) == front + back;
    var at, n := TotalLength(fs[..k]), fs[k].length;
    if k == last {
      assert (front + back)[|front|..|front| + |back|] == back;
    } else {
      ImageOfFile(fs[..last], cs[..last], k);
      assert fs[..last][..k] == fs[..k];
      assert at + n <= |front|;
      assert (front + back)[at..at + n] == front[at..at + n];
    }
  }

  /** The bytes of every piece are in place. */
  ghost predicate AllPieces(m: Meta, cs: seq<bytes>, truth: bytes)
    requires WellFormed(m) && |cs| == |m.files| && |truth| == m.Total()
  {
    forall i: nat :: i < m.numPieces ==> Holds(m.files, cs, PieceBegin(m, i), PieceOf(m, truth, i))
  }

  // A byte of a range that reads back as in `truth`.
  lemma {:induction false} ByteOfRange(fs: seq<FileInfo>, cs: seq<bytes>, truth: bytes, at: nat, n: nat, g: nat)
    requires |fs| == |cs| && at + n <= |truth| == TotalLength(fs) && at <= g < at + n
    requires Holds(fs, cs, at, truth[at..at + n])
    ensures Image(fs, cs)[g] == truth[g]
  {
    hide TotalLength, Backed, Image;
    assert Image(fs, cs)[at..at + n][g - at] == truth[at..at + n][g - at];
  }

  lemma {:induction false} InPieceBounds(m: Meta, i: nat, g: nat)
    requires m.pieceLength > 0 && InPiece(m, i, g)
    ensures PieceBegin(m, i) <= g < PieceBegin(m, i) + PieceLength(m, i)
    ensures m.Total() == TotalLength(m.files)
  {
  }

  lemma {:induction false} PieceOfLength(m: Meta, truth: bytes, i: nat)
    requires WellFormed(m) && |truth| == m.Total() && i < m.numPieces
    ensures var at, n := PieceBegin(m, i), PieceLength(m, i);
            at + n <= m.Total() && PieceOf(m, truth, i) == truth[at..at + n] && |PieceOf(m, truth, i)| == n
  {
    PieceFits(m, i);
    hide PieceLength, PieceBegin, WellFormed;
  }

  lemma {:induction false} ByteOfPiece(m: Meta, cs: seq<bytes>, truth: bytes, i: nat, g: nat)
    requires WellFormed(m) && |cs| == |m.files| && |truth| == m.Total() && i < m.numPieces
    requires Holds(m.files, cs, PieceBegin(m, i), PieceOf(m, truth, i)) && InPiece(m, i, g)
    ensures g < m.Total() && Image(m.files, cs)[g] == truth[g]
    ensures |PieceOf(m, truth, i)| == PieceLength(m, i)
    ensures PieceBegin(m, i) <= g < PieceBegin(m, i) + PieceLength(m, i)
  {
    hide *;
    PositivePieces(m);
    PieceOfLength(m, truth, i);
    InPieceBounds(m, i, g);
    ByteOfRange(m.files, cs, truth, PieceBegin(m, i), PieceLength(m, i), g);
  }

  lemma {:induction false} AllPiecesImage(m: Meta, cs: seq<bytes>, truth: bytes)
    requires WellFormed(m) && |cs| == |m.files| && |truth| == m.Total() && AllPieces(m, cs, truth)
    ensures Image(m.files, cs) == truth
  {
    hide WellFormed, InPiece, Holds, Image, PieceBegin, PieceOf;
    forall g: nat | g < m.Total()
      ensures Image(m.files, cs)[g] == truth[g]
    {
      PositivePieces(m);
      PieceOfByte(m, g);
      ByteOfPiece(m, cs, truth, g / m.pieceLength, g);
    }
  }

  lemma {:induction false} PositivePieces(m: Meta)
    requires WellFormed(m)
    ensures m.pieceLength > 0
  {
  }

  // A file whose last byte lies in a range that reads back has its full length.
  lemma {:induction false} LastByteBacked(fs: seq<FileInfo>, cs: seq<bytes>, k: nat, at: nat, d: bytes)
    requires |fs| == |cs| && k < |fs| && fs[k].length > 0 && Holds(fs, cs, at, d)
    requires at < fs[k].begin + fs[k].length <= at + |d|
    ensures |cs[k]| >= fs[k].length
  {
    hide Image, TotalLength;
    assert FileBacked(fs[k], |cs[k]|, at, at + |d|);
  }

  lemma {:induction false} FileReaches(m: Meta, cs: seq<bytes>, truth: bytes, k: nat)
    requires WellFormed(m) && |cs| == |m.files| && |truth| == m.Total() && AllPieces(m, cs, truth)
    requires k < |m.files| && m.files[k].begin + m.files[k].length <= m.Total()
    ensures |cs[k]| >= m.files[k].length
  {
    hide WellFormed, InPiece, Holds, Image, PieceBegin, PieceOf, PieceLength, TotalLength;
    if m.files[k].length > 0 {
      var g := m.files[k].begin + m.files[k].length - 1;
      PositivePieces(m);
      PieceOfByte(m, g);
      var i := g / m.pieceLength;
      ByteOfPiece(m, cs, truth, i, g);
      LastByteBacked(m.files, cs, k, PieceBegin(m, i), PieceOf(m, truth, i));
    }
  }

  // One file of the finished download.
  lemma {:induction false} FileDone(m: Meta, cs: seq<bytes>, truth: bytes, k: nat)
    requires WellFormed(m) && |cs| == |m.files| && |truth| == m.Total() && AllPieces(m, cs, truth) && k < |m.files|
    ensures FileIs(m.files[k], cs[k], truth)
  {
    AllPiecesImage(m, cs, truth);
    S.WellFormedLayout(m);
    hide WellFormed, AllPieces, Image, Contiguous, TotalLength, Padded;
    FileBegins(m.files, k);
    ImageOfFile(m.files, cs, k);
    FileReaches(m, cs, truth, k);
    PaddedIs(cs[k], m.files[k].length);
  }

  lemma {:induction false} AllPiecesFinished(m: Meta, cs: seq<bytes>, truth: bytes)
    requires WellFormed(m) && |cs| == |m.files| && |truth| == m.Total() && AllPieces(m, cs, truth)
    ensures Finished(m, cs, truth)
  {
    hide WellFormed, AllPieces, FileIs;
    forall k | 0 <= k < |m.files|
      ensures FileIs(m.files[k], cs[k], truth)
    {
      FileDone(m, cs, truth, k);
    }
  }

  lemma {:induction false} FileBegins(fs: seq<FileInfo>, k: nat)
    requires Contiguous(fs) && k < |fs|
    ensures fs[k].begin == TotalLength(fs[..k])
  {
  }

  lemma {:induction false} PaddedIs(c: bytes, n: nat)
    ensures n <= |c| ==> Padded(c, n) == c[..n]
  {
  }

  /**
   The finished download: as long as no wrong data has passed the hash check, in every state of
   every run of the piece store in which all pieces are completed, every file has its full length
   and the bytes of the torrent; and no more than that, if no file was too long at the start.
   */
  lemma {:induction false} FinishedDownload(m: Meta, truth: bytes, found: map<nat, bytes>, ss: seq<S.State>, j: nat)
    requires S.Run(m, found, ss) && j < |ss| && S.TrueData(m, truth, found, ss[j].accepted)
    requires forall i: nat :: i < m.numPieces ==> i in ss[j].completed
    ensures Finished(m, ss[j].contents, truth)
    ensures Within(m.files, ss[0].contents) ==> Exactly(m, ss[j].contents, truth)
  {
    S.TrueIsTorrent(m, truth, found, ss[j].accepted);
    SomePiece(m);
    hide WellFormed, S.TrueData, S.Run, Holds, PieceOf, Finished, PieceBegin, Within, Exactly;
    var cs := ss[j].contents;
    S.CompletedIsTrue(m, truth, found, ss, j, 0);
    forall i: nat | i < m.numPieces
      ensures |cs| == |m.files| && Holds(m.files, cs, PieceBegin(m, i), PieceOf(m, truth, i))
    {
      S.CompletedIsTrue(m, truth, found, ss, j, i);
    }
    AllPiecesFinished(m, cs, truth);
    if Within(m.files, ss[0].contents) {
      S.RunWithin(m, found, ss, j);
      NothingMore(m, cs, truth);
    }
  }

  /** Every file is its part of the torrent, byte for byte and no longer. */
  ghost predicate Exactly(m: Meta, cs: seq<bytes>, truth: bytes) {
    && |cs| == |m.files|
    && forall k :: 0 <= k < |m.files| ==>
         && m.files[k].begin + m.files[k].length <= |truth|
         && cs[k] == truth[m.files[k].begin..m.files[k].begin + m.files[k].length]
  }

  lemma {:induction false} NothingMore(m: Meta, cs: seq<bytes>, truth: bytes)
    requires Finished(m, cs, truth) && Within(m.files, cs)
    ensures Exactly(m, cs, truth)
  {
    forall k | 0 <= k < |m.files|
      ensures cs[k] == cs[k][..m.files[k].length]
    {
    }
  }

  lemma {:induction false} SomePiece(m: Meta)
    requires WellFormed(m)
    ensures m.numPieces > 0
  {
    LastPiece(m);
  }
}
