/**
 The piece store `TorrentFileManagerImpl` of ctorrent/torrentfilemanager.cpp and the counters of
 ctorrent/torrent.cpp that rest on it, as classes that change their fields in place. The methods
 here are the sequential bodies; StoreProtocol interleaves their steps between the two threads.
 */
module FileManager {
  import opened Bytes
  import opened Wrappers
  import opened Layout
  import opened Pieces
  import opened Bitset
  import opened Scheduler
  import P = StoreProtocol

  type WriteRequest = P.WriteRequest

  // ---------- Draining the write queue ----------

  /** The files after the requests of `q` were written in order. */
  function Drain(m: Meta, cs: seq<bytes>, q: seq<WriteRequest>): (r: seq<bytes>)
    requires |cs| == |m.files|
    ensures |r| == |m.files|
    decreases |q|
  {
    if q == [] then cs
    else Drain(m, WriteAcross(m.files, cs, PieceBegin(m, q[0].index), q[0].data), q[1..])
  }

  /** Requests are written in the order in which they were queued, each at the begin of its piece. */
  lemma {:induction false} DrainInOrder(m: Meta, cs: seq<bytes>, q: seq<WriteRequest>, w: WriteRequest)
    requires |cs| == |m.files|
    ensures Drain(m, cs, []) == cs
    ensures Drain(m, cs, q + [w]) == WriteAcross(m.files, Drain(m, cs, q), w.index * m.pieceLength, w.data)
    decreases |q|
  {
    hide WriteAcross;
    if q == [] {
      assert [] + [w] == [w] && [w][1..] == [];
    } else {
      assert (q + [w])[1..] == q[1..] + [w];
      DrainInOrder(m, WriteAcross(m.files, cs, PieceBegin(m, q[0].index), q[0].data), q[1..], w);
    }
  }

  lemma {:induction false} OtherPieceUntouched(m: Meta, cs: seq<bytes>, w: WriteRequest, c: nat, d: bytes)
    requires WellFormed(m) && |cs| == |m.files| && w.index < m.numPieces && c < m.numPieces && c != w.index
    requires |w.data| == PieceLength(m, w.index) && |d| == PieceLength(m, c)
    requires Holds(m.files, cs, PieceBegin(m, c), d)
    ensures Holds(m.files, WriteAcross(m.files, cs, PieceBegin(m, w.index), w.data), PieceBegin(m, c), d)
  {
    hide PieceBegin, Image, Overlay, Backed, PieceLength, Contiguous, WriteAcross;
    if c < w.index {
      PiecesDisjoint(m, c, w.index);
    } else {
      PiecesDisjoint(m, w.index, c);
    }
    var at, other := PieceBegin(m, w.index), PieceBegin(m, c);
    WriteAcrossIsOverlay(m.files, cs, at, w.data);
    OverlayKeeps(Image(m.files, cs), at, w.data, other, other + |d|);
    BackedGrows(m.files, cs, WriteAcross(m.files, cs, at, w.data), other, other + |d|);
  }

  /** Draining a queue of distinct requests of the right lengths leaves each of their pieces readable, and disturbs no other piece. */
  lemma {:induction false} DrainHolds(m: Meta, cs: seq<bytes>, q: seq<WriteRequest>, c: nat, d: bytes)
    requires WellFormed(m) && |cs| == |m.files| && P.Distinct(q)
    requires forall k :: 0 <= k < |q| ==> q[k].index < m.numPieces && |q[k].data| == PieceLength(m, q[k].index)
    requires c < m.numPieces && |d| == PieceLength(m, c)
    requires (exists k :: 0 <= k < |q| && q[k].index == c && q[k].data == d)
          || (c !in P.Indices(q) && Holds(m.files, cs, PieceBegin(m, c), d))
    ensures Holds(m.files, Drain(m, cs, q), PieceBegin(m, c), d)
    decreases |q|
  {
    hide Contiguous, Holds, PieceBegin, PieceLength, WriteAcross, P.Indices, P.Distinct;
    if q == [] {
      EmptyIndices(c);
    } else {
      var w := q[0];
      var cs' := WriteAcross(m.files, cs, PieceBegin(m, w.index), w.data);
      P.IndicesPop(q);
      assert forall k :: 0 <= k < |q| - 1 ==> q[1..][k] == q[k + 1];
      if w.index == c && w.data == d {
        JustWritten(m, cs, w);
      } else if exists k :: 0 <= k < |q| && q[k].index == c && q[k].data == d {
        var k :| 0 <= k < |q| && q[k].index == c && q[k].data == d;
        assert q[1..][k - 1] == q[k];
      } else {
        P.IndicesFront(q);
        OtherPieceUntouched(m, cs, w, c, d);
      }
      DrainHolds(m, cs', q[1..], c, d);
    }
  }

  lemma {:induction false} EmptyIndices(c: nat)
    ensures c !in P.Indices([])
  {
  }

  lemma {:induction false} JustWritten(m: Meta, cs: seq<bytes>, w: WriteRequest)
    requires WellFormed(m) && |cs| == |m.files| && w.index < m.numPieces && |w.data| == PieceLength(m, w.index)
    ensures Holds(m.files, WriteAcross(m.files, cs, PieceBegin(m, w.index), w.data), PieceBegin(m, w.index), w.data)
  {
    hide PieceBegin, PieceLength, Holds, WriteAcross;
    PieceFits(m, w.index);
    WriteAcrossHolds(m.files, cs, PieceBegin(m, w.index), w.data);
  }

  /**
   Why the data must have the right length: a piece that is too long, were it accepted, is written
   over the beginning of the next piece, which then no longer reads back.
   */
  lemma {:induction false} LongPieceDisturbs(m: Meta, cs: seq<bytes>, i: nat, d: bytes, other: bytes)
    requires WellFormed(m) && |cs| == |m.files| && i + 1 < m.numPieces
    requires Holds(m.files, cs, PieceBegin(m, i + 1), other) && other != []
    requires |d| > PieceLength(m, i) && d[PieceLength(m, i)] != other[0]
    ensures !Holds(m.files, WriteAcross(m.files, cs, PieceBegin(m, i), d), PieceBegin(m, i + 1), other)
  {
    var at, next := PieceBegin(m, i), PieceBegin(m, i + 1);
    assert next == at + PieceLength(m, i);
    hide PieceBegin, PieceLength, Image, Overlay, Backed, WriteAcross, Contiguous, TotalLength;
    var r := WriteAcross(m.files, cs, at, d);
    WriteAcrossIsOverlay(m.files, cs, at, d);
    OverlayAt(Image(m.files, cs), at, d, next);
  }

  // ---------- The step system performs the same write ----------

  /** The rounds of process_write that the worker of the step system takes from `s` on. */
  function FileSteps(m: Meta, s: P.State): P.State
    requires s.worker.WFile? && P.Enabled(m, s, P.WorkerFile)
    decreases |m.files| - s.worker.k
  {
    if s.worker.k == |m.files| then P.Apply(m, s, P.WorkerFile)
    else FileSteps(m, P.Apply(m, s, P.WorkerFile))
  }

  lemma {:induction false} FileStepsAre(m: Meta, s: P.State)
    requires s.worker.WFile? && P.Enabled(m, s, P.WorkerFile) && s.worker.cur.contents == s.contents
    ensures FileSteps(m, s) == s.(worker := P.WClear,
                                  contents := WriteFrom(m.files, s.worker.cur, s.worker.k, s.queue[0].data).contents)
    decreases |m.files| - s.worker.k
  {
    hide FileWrite, StartWrite, PieceBegin, P.Eligible;
    if s.worker.k < |m.files| {
      FileStepShape(m.files, s.worker.cur, s.worker.k, s.queue[0].data);
      FileStepsAre(m, P.Apply(m, s, P.WorkerFile));
    }
  }

  /** Taken together, the worker's file steps change the files exactly as `ProcessWrite` does. */
  lemma {:induction false} StepsPerformProcessWrite(m: Meta, s: P.State)
    requires s.worker.WWrites? && s.queue != [] && |s.contents| == |m.files|
    ensures var t := P.Apply(m, s, P.WorkerFront);
            && t.worker.WFile? && P.Enabled(m, t, P.WorkerFile)
            && FileSteps(m, t) == s.(worker := P.WClear,
                 contents := WriteAcross(m.files, s.contents, PieceBegin(m, s.queue[0].index), s.queue[0].data))
  {
    hide FileSteps, WriteFrom;
    FileStepsAre(m, P.Apply(m, s, P.WorkerFront));
  }

  // ---------- The classes ----------

  class TorrentFileManager {
    const m: Meta
    const completedBits: Bitset
    const pendingBits: Bitset
    var contents: seq<bytes>
    var writeRequests: seq<WriteRequest>
    var pri: seq<int>

    ghost predicate Valid()
      reads this, completedBits.bits, pendingBits.bits
    {
      && m.pieceLength > 0
      && |contents| == |m.files|
      && |pri| == m.numPieces && Priorities(pri)
      && completedBits.bits.Length == m.numPieces && pendingBits.bits.Length == m.numPieces
      && completedBits.bits != pendingBits.bits
      && (forall i :: i in Completed() ==> i < m.numPieces)
      && (forall i :: i in Pending() ==> i < m.numPieces)
      && (forall k :: 0 <= k < |writeRequests| ==> P.ValidRequest(m, writeRequests[k]))
      && P.Distinct(writeRequests)
      && Pending() == P.Indices(writeRequests)
    }

    ghost function Completed(): set<nat>
      reads completedBits.bits
    {
      completedBits.Members()
    }

    ghost function Pending(): set<nat>
      reads pendingBits.bits
    {
      pendingBits.Members()
    }

    /** `init_pieces` and the opening of the files: no piece complete, none pending, every priority zero. */
    constructor (meta: Meta, onDisk: seq<bytes>)
      requires meta.pieceLength > 0 && |onDisk| == |meta.files|
      ensures Valid() && m == meta && contents == onDisk
      ensures Completed() == {} && writeRequests == [] && pri == seq(meta.numPieces, _ => 0)
      ensures fresh(completedBits.bits) && fresh(pendingBits.bits)
    {
      m := meta;
      completedBits := new Bitset(meta.numPieces);
      pendingBits := new Bitset(meta.numPieces);
      contents := onDisk;
      writeRequests := [];
      pri := seq(meta.numPieces, _ => 0);
      new;
      assert P.Indices([]) == {};
    }

    /** `process_write`: the piece is split over the files, then the bits change. The request is not popped yet. */
    method ProcessWrite(w: WriteRequest)
      requires |contents| == |m.files| && w.index < m.numPieces
      requires completedBits.bits.Length == m.numPieces && pendingBits.bits.Length == m.numPieces
      requires completedBits.bits != pendingBits.bits
      modifies this`contents, completedBits.bits, pendingBits.bits
      ensures |contents| == |m.files|
      ensures contents == WriteAcross(m.files, old(contents), PieceBegin(m, w.index), w.data)
      ensures Pending() == old(Pending()) - {w.index}
      ensures Completed() == old(Completed()) + {w.index}
    {
      hide FileWrite;
      var beginPos: nat := w.index * m.pieceLength;
      var length: nat := |w.data|;
      var off: nat := 0;
      ghost var final := WriteFrom(m.files, StartWrite(contents, beginPos, w.data), 0, w.data);
      for k := 0 to |m.files|
        invariant |contents| == |m.files| && off + length == |w.data|
        invariant final == WriteFrom(m.files, Cursor(contents, beginPos, off, length, false), k, w.data)
        invariant Pending() == old(Pending()) && Completed() == old(Completed())
      {
        var i := m.files[k];
        if beginPos < i.begin {
          StoppedStays(m.files, Cursor(contents, beginPos, off, length, true), k + 1, w.data);
          break;
        }
        var fileEnd := i.begin + i.length;
        if beginPos >= fileEnd {
          continue;
        }
        var amount := fileEnd - beginPos;
        if amount > length {
          amount := length;
        }
        contents := contents[k := FileWrite(contents[k], beginPos - i.begin, w.data[off..off + amount])];
        off := off + amount;
        beginPos := beginPos + amount;
        length := length - amount;
      }
      assert contents == final.contents;
      pendingBits.Clear(w.index);
      completedBits.Set(w.index);
    }

    static lemma {:induction false} StoppedStays(fs: seq<FileInfo>, cur: Cursor, k: nat, data: bytes)
      requires |cur.contents| == |fs| && k <= |fs| && cur.off + cur.length == |data| && cur.stopped
      ensures WriteFrom(fs, cur, k, data) == cur
      decreases |fs| - k
    {
      if k < |fs| {
        StoppedStays(fs, cur, k + 1, data);
      }
    }

    /** The write loop of `thread`: requests are written in FIFO order until the queue is empty. */
    method DrainWrites()
      requires Valid()
      modifies this`contents, this`writeRequests, completedBits.bits, pendingBits.bits
      ensures Valid() && writeRequests == []
      ensures contents == Drain(m, old(contents), old(writeRequests))
      ensures Completed() == old(Completed()) + P.Indices(old(writeRequests))
      ensures Pending() == {}
    {
      hide P.ValidRequest, P.Indices, P.Distinct, WriteAcross, PieceBegin;
      ghost var all := P.Indices(writeRequests);
      while writeRequests != []
        invariant Valid()
        invariant Drain(m, contents, writeRequests) == Drain(m, old(contents), old(writeRequests))
        invariant P.Indices(writeRequests) <= all
        invariant Completed() + P.Indices(writeRequests) == old(Completed()) + all
        decreases |writeRequests|
      {
        var w := writeRequests[0];
        P.IndicesPop(writeRequests);
        P.IndicesFront(writeRequests);
        FrontIndex(m, w);
        ProcessWrite(w);
        writeRequests := writeRequests[1..];
      }
      NoIndices();
    }

    static lemma {:induction false} FrontIndex(m: Meta, w: WriteRequest)
      requires P.ValidRequest(m, w)
      ensures w.index < m.numPieces
    {
    }

    static lemma {:induction false} NoIndices()
      ensures P.Indices([]) == {}
    {
    }

    /** `writePieceBlock`: a block is queued iff its index is known, not pending, and its digest matches. */
    method WritePieceBlock(index: nat, from: uint32, data: bytes) returns (ok: bool)
      requires Valid()
      modifies this`writeRequests, pendingBits.bits
      ensures Valid()
      ensures ok <==> P.Eligible(m, old(Pending()), P.WriteRequest(index, from, data))
      ensures writeRequests == if ok then old(writeRequests) + [P.WriteRequest(index, from, data)] else old(writeRequests)
    {
      if index >= m.numPieces {
        return false;
      }
      if pendingBits.Test(index) {
        return false;
      }
      if !m.hashOK(index, data) {
        return false;
      }
      var w := P.WriteRequest(index, from, data);
      P.IndicesPush(writeRequests, w);
      writeRequests := writeRequests + [w];
      pendingBits.Set(index);
      return true;
    }

    ghost function EligibleFor(has: nat -> bool): (e: set<nat>)
      reads completedBits.bits, pendingBits.bits
      ensures forall i: nat :: i in e <==> i < m.numPieces && i !in Completed() && i !in Pending() && has(i)
    {
      set i | i in Below(m.numPieces) && i !in Completed() && i !in Pending() && has(i)
    }

    /**
     `get_next_piece`, early return included: the leftmost piece of least priority among those
     not complete, not pending and held by the peer; exactly its priority grows by one. None is
     returned iff every such piece has reached the largest priority.
     */
    method GetNextPiece(has: nat -> bool) returns (r: Option<nat>)
      requires Valid()
      modifies this`pri
      ensures Valid()
      ensures r == Pick(old(pri), EligibleFor(has))
      ensures pri == Bump(old(pri), r)
    {
      hide *;
      ghost var eligible := EligibleFor(has);
      ValidSizes();
      var index := 0;
      var priority := MAX_PRIORITY;
      NothingScanned(pri, eligible);
      for i := 0 to |pri|
        invariant Valid() && pri == old(pri) && eligible == EligibleFor(has)
        invariant Scanned(pri, eligible, i, index, priority)
      {
        ValidSizes();
        EligibleIs(has, i);
        if completedBits.Test(i) || pendingBits.Test(i) || !has(i) {
          ScanSkips(pri, eligible, i, index, priority);
          continue;
        }
        if pri[i] == 0 {
          ScanReturns(pri, eligible, i, index, priority);
          Raise(eligible, i, 1);
          return Some(i);
        }
        ScanCompares(pri, eligible, i, index, priority);
        if priority > pri[i] {
          priority := pri[i];
          index := i;
        }
      }
      ScanEnds(pri, eligible, index, priority);
      BumpNone(pri);
      if priority != MAX_PRIORITY {
        PickInRange(pri, eligible);
        Raise(eligible, index, pri[index] + 1);
        return Some(index);
      }
      return None;
    }

    // The store to one priority.
    method Raise(ghost eligible: set<nat>, i: nat, v: int)
      requires Valid() && Pick(pri, eligible) == Some(i) && v == pri[i] + 1
      modifies this`pri
      ensures Valid() && pri == Bump(old(pri), Some(i))
    {
      hide P.ValidRequest, P.Indices, P.Distinct, Pick;
      BumpKeepsRange(pri, eligible);
      pri := pri[i := v];
    }

    lemma {:induction false} EligibleIs(has: nat -> bool, i: nat)
      requires Valid() && i < m.numPieces
      ensures m.numPieces == completedBits.bits.Length == pendingBits.bits.Length
      ensures i in EligibleFor(has) <==> !completedBits.Test(i) && !pendingBits.Test(i) && has(i)
    {
    }

    lemma {:induction false} ValidSizes()
      requires Valid()
      ensures |pri| == m.numPieces == completedBits.bits.Length == pendingBits.bits.Length
      ensures Priorities(pri)
    {
    }

    static lemma {:induction false} BumpNone(pri: seq<int>)
      ensures Bump(pri, None) == pri
    {
    }

    static lemma {:induction false} PickInRange(pri: seq<int>, eligible: set<nat>)
      ensures Pick(pri, eligible).Some? ==> Pick(pri, eligible).value < |pri|
    {
    }

    static lemma {:induction false} NothingScanned(pri: seq<int>, eligible: set<nat>)
      ensures Scanned(pri, eligible, 0, 0, MAX_PRIORITY)
    {
    }

    static lemma {:induction false} BumpKeepsRange(pri: seq<int>, eligible: set<nat>)
      requires Priorities(pri)
      ensures Pick(pri, eligible).Some? ==> Pick(pri, eligible).value < |pri|
      ensures Priorities(Bump(pri, Pick(pri, eligible)))
    {
    }

    /**
     `compute_downloaded`. After its loop the code tests the bit one past the last piece, which
     is never set, so the last piece is never counted: the result is right exactly as long as
     the last piece is missing, and always leaves at least the last piece remaining.
     */
    method ComputeDownloaded() returns (downloaded: nat)
      requires Valid() && WellFormed(m)
      ensures downloaded == BytesOf(m, Completed() - {m.numPieces - 1}, m.numPieces)
      ensures downloaded + LastPieceLength(m) <= m.Total()
      ensures downloaded == BytesOf(m, Completed(), m.numPieces) <==> m.numPieces - 1 !in Completed()
    {
      LastPiece(m);
      hide P.ValidRequest, P.Indices, P.Distinct, WellFormed;
      ghost var last := m.numPieces - 1;
      ghost var counted := Completed() - {last};
      var i := 0;
      downloaded := 0;
      while i < |pri| - 1
        invariant i <= last
        invariant downloaded == BytesOf(m, counted, i)
      {
        if completedBits.Test(i) {
          downloaded := downloaded + m.pieceLength;
        }
        i := i + 1;
      }
      if completedBits.Test(i + 1) {
        // Bit numPieces belongs to no piece: the source's addition of the last piece never happens.
        assert false;
      }
      assert downloaded == BytesOf(m, counted, m.numPieces);
      assert BytesOf(m, Completed(), m.numPieces)
          == downloaded + (if last in Completed() then LastPieceLength(m) else 0) by {
        BytesOfAgree(m, counted, Completed(), last);
      }
      BytesOfBound(m, counted + {last});
      BytesOfAgree(m, counted, counted + {last}, last);
    }

    ghost predicate AllCompleted()
      reads completedBits.bits
    {
      forall i: nat :: i < m.numPieces ==> i in Completed()
    }

    /**
     `totalPieces() == completedPieces()`, where `past` is the byte after the bit array. With an odd
     number of pieces and a non-zero byte the answer is no once all pieces are completed, and yes
     when exactly as many pieces are missing as the byte has bits; otherwise it is right.
     */
    method IsFinished(past: bv8) returns (r: bool)
      requires Valid()
      ensures r <==> m.numPieces == |Completed()| + if m.numPieces % 2 == 1 then Count8(past) else 0
      ensures (r <==> AllCompleted()) <==>
                m.numPieces % 2 == 0 || past == 0 || (!AllCompleted() && m.numPieces != |Completed()| + Count8(past))
      ensures AllCompleted() && m.numPieces % 2 == 1 && past != 0 ==> !r
      ensures !AllCompleted() && m.numPieces % 2 == 1 && m.numPieces == |Completed()| + Count8(past) ==> r
    {
      hide P.ValidRequest, P.Indices, P.Distinct, Count8, Priorities;
      var n := completedBits.Count(past);
      AllOrFewer(Completed(), m.numPieces);
      OnlyZeroIsEmpty(past);
      r := m.numPieces == n;
    }

    static lemma {:induction false} AllOrFewer(s: set<nat>, n: nat)
      requires forall i :: i in s ==> i < n
      ensures |s| == n <==> forall i: nat :: i < n ==> i in s
    {
      var all := Below(n);
      assert s <= all;
      SubsetSize(s, all);
      if forall i: nat :: i < n ==> i in s {
        assert s == all;
      }
    }

    static lemma {:induction false} SubsetSize(s: set<nat>, t: set<nat>)
      requires s <= t
      ensures |s| <= |t| && (|s| == |t| ==> s == t)
    {
      assert t == s + (t - s);
      if t - s != {} {
        assert |t - s| > 0;
      }
    }
  }

  datatype TrackerQuery = TrackerQuery(downloaded: nat, uploaded: nat, remaining: nat)

  class Torrent {
    const fileManager: TorrentFileManager
    var uploadedBytes: nat
    var downloadedBytes: nat
    var wastedBytes: nat
    var hashMisses: nat

    constructor (fm: TorrentFileManager)
      ensures fileManager == fm && uploadedBytes == downloadedBytes == wastedBytes == hashMisses == 0
    {
      fileManager := fm;
      uploadedBytes, downloadedBytes, wastedBytes, hashMisses := 0, 0, 0, 0;
    }

    /** `handlePieceCompleted`: every finished piece is either queued or counted as wasted. */
    method HandlePieceCompleted(index: uint32, from: uint32, data: bytes) returns (ok: bool)
      requires fileManager.Valid()
      modifies this`wastedBytes, this`hashMisses, fileManager`writeRequests, fileManager.pendingBits.bits
      ensures fileManager.Valid()
      ensures ok <==> P.Eligible(fileManager.m, old(fileManager.Pending()), P.WriteRequest(index, from, data))
      ensures fileManager.writeRequests
           == old(fileManager.writeRequests) + if ok then [P.WriteRequest(index, from, data)] else []
      ensures wastedBytes == old(wastedBytes) + if ok then 0 else |data|
      ensures hashMisses == old(hashMisses) + if ok then 0 else 1
    {
      ok := fileManager.WritePieceBlock(index, from, data);
      if ok {
        return true;
      }
      wastedBytes := wastedBytes + |data|;
      hashMisses := hashMisses + 1;
      return false;
    }

    /** `makeTrackerQuery`: the unsigned subtraction for `remaining` never wraps, nor ever reaches zero. */
    method MakeTrackerQuery() returns (q: TrackerQuery)
      requires fileManager.Valid() && WellFormed(fileManager.m)
      ensures q.uploaded == uploadedBytes
      ensures var m := fileManager.m; q.downloaded == BytesOf(m, fileManager.Completed() - {m.numPieces - 1}, m.numPieces)
      ensures q.downloaded + q.remaining == fileManager.m.Total()
      ensures q.remaining >= LastPieceLength(fileManager.m) >= 1
    {
      var downloaded := fileManager.ComputeDownloaded();
      LastPiece(fileManager.m);
      q := TrackerQuery(downloaded, uploadedBytes, fileManager.m.Total() - downloaded);
    }
  }
}
