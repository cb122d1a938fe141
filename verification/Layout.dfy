/**
 How the pieces of a torrent lie across its files: the contiguous layout that
 ctorrent/torrentmeta.cpp builds, piece ranges, and the loop of `process_write`
 (ctorrent/torrentfilemanager.cpp) that splits one piece over consecutive files, shown to be a
 flat overlay on the concatenation of all files.
 */
module Layout {
  import opened Bytes

  datatype FileInfo = FileInfo(index: nat, begin: nat, length: nat)

  // ---------- The layout ----------

  function TotalLength(fs: seq<FileInfo>): nat {
    if fs == [] then 0 else TotalLength(fs[..|fs| - 1]) + fs[|fs| - 1].length
  }

  /** Every file starts where the files before it end. */
  ghost predicate Contiguous(fs: seq<FileInfo>) {
    forall k :: 0 <= k < |fs| ==> fs[k].index == k && fs[k].begin == TotalLength(fs[..k])
  }

  lemma {:induction false} TotalLengthMonotone(fs: seq<FileInfo>, j: nat, k: nat)
    requires j <= k <= |fs|
    ensures TotalLength(fs[..j]) <= TotalLength(fs[..k])
    decreases k - j
  {
    if j == k {
    } else {
      TotalLengthMonotone(fs, j, k - 1);
      assert fs[..k][..k - 1] == fs[..k - 1];
    }
  }

  lemma {:induction false} NextBegin(fs: seq<FileInfo>, k: nat)
    requires Contiguous(fs) && k < |fs|
    ensures fs[k].begin + fs[k].length == TotalLength(fs[..k + 1])
    ensures fs[k].begin + fs[k].length <= TotalLength(fs)
  {
    assert fs[..k + 1][..k] == fs[..k];
    TotalLengthMonotone(fs, k + 1, |fs|);
    assert fs[..|fs|] == fs;
  }

  // ---------- The bytes of all files as one image ----------

  /** The first `n` bytes of a file, where bytes not yet written read as zero. */
  function Padded(c: bytes, n: nat): (r: bytes)
    ensures |r| == n
  {
    if n <= |c| then c[..n] else c + Zeros(n - |c|)
  }

  function Image(fs: seq<FileInfo>, cs: seq<bytes>): (r: bytes)
    requires |fs| == |cs|
    ensures |r| == TotalLength(fs)
  {
    if fs == [] then [] else
      Image(fs[..|fs| - 1], cs[..|cs| - 1]) + Padded(cs[|cs| - 1], fs[|fs| - 1].length)
  }

  function Min(a: int, b: int): int { if a < b then a else b }

  // A file of `size` bytes on disk contains every byte of f that lies in the flat range [lo, hi).
  predicate FileBacked(f: FileInfo, size: nat, lo: nat, hi: nat) {
    var end := Min(hi, f.begin + f.length);
    lo < end && f.begin < end ==> end - f.begin <= size
  }

  /** Every byte of the flat range [lo, hi) has really been written to its file. */
  ghost predicate Backed(fs: seq<FileInfo>, cs: seq<bytes>, lo: nat, hi: nat)
    requires |fs| == |cs|
  {
    forall k :: 0 <= k < |fs| ==> FileBacked(fs[k], |cs[k]|, lo, hi)
  }

  /** Reading the flat range that starts at `at` back from the files gives exactly `d`. */
  ghost predicate Holds(fs: seq<FileInfo>, cs: seq<bytes>, at: nat, d: bytes)
    requires |fs| == |cs|
  {
    && at + |d| <= TotalLength(fs)
    && Backed(fs, cs, at, at + |d|)
    && Image(fs, cs)[at..at + |d|] == d
  }

  // ---------- Writing into one file ----------

  /** `fseek` followed by `fwrite`: a gap before the write position is filled with zeros. */
  function FileWrite(c: bytes, at: nat, chunk: bytes): (r: bytes)
    ensures |r| >= |c|
    ensures chunk != [] ==> |r| >= at + |chunk|
  {
    if chunk == [] then c
    else Overlay(if at + |chunk| <= |c| then c else c + Zeros(at + |chunk| - |c|), at, chunk)
  }

  /** The file after the write, byte by byte: the new bytes, the old ones around them, zeros in a gap, and nothing more. */
  lemma {:induction false} FileWriteIs(c: bytes, at: nat, chunk: bytes)
    ensures var r := FileWrite(c, at, chunk);
            && |r| == (if chunk != [] && at + |chunk| > |c| then at + |chunk| else |c|)
            && (chunk != [] ==> r[at..at + |chunk|] == chunk)
            && (forall p :: 0 <= p < |r| && !(at <= p < at + |chunk|) ==> r[p] == if p < |c| then c[p] else 0)
  {
  }

  lemma {:induction false} PaddedWrite(c: bytes, n: nat, at: nat, chunk: bytes)
    requires at + |chunk| <= n
    ensures Padded(FileWrite(c, at, chunk), n) == Overlay(Padded(c, n), at, chunk)
  {
  }

  // Writing inside file k is an overlay of the image at the flat position.
  lemma {:induction false} ImageWrite(fs: seq<FileInfo>, cs: seq<bytes>, k: nat, at: nat, chunk: bytes)
    requires |fs| == |cs| && k < |fs|
    requires at + |chunk| <= fs[k].length
    ensures Image(fs, cs[k := FileWrite(cs[k], at, chunk)])
         == Overlay(Image(fs, cs), TotalLength(fs[..k]) + at, chunk)
  {
    hide Overlay, Padded, FileWrite;
    var last := |fs| - 1;
    var cs' := cs[k := FileWrite(cs[k], at, chunk)];
    var front := Image(fs[..last], cs[..last]);
    if k == last {
      PaddedWrite(cs[k], fs[k].length, at, chunk);
      assert cs'[..last] == cs[..last];
      OverlayRight(front, Padded(cs[k], fs[k].length), at, chunk);
    } else {
      ImageWrite(fs[..last], cs[..last], k, at, chunk);
      assert cs'[..last] == cs[..last][k := FileWrite(cs[k], at, chunk)];
      assert fs[..last][..k] == fs[..k];
      TotalLengthMonotone(fs, k + 1, last);
      assert fs[..k + 1][..k] == fs[..k];
      OverlayLeft(front, Padded(cs[last], fs[last].length), TotalLength(fs[..k]) + at, chunk);
    }
  }

  // ---------- The loop of process_write ----------

  /** The variables of the loop: the file contents, `beginPos`, `off`, `length`, and whether `break` was taken. */
  datatype Cursor = Cursor(contents: seq<bytes>, beginPos: nat, off: nat, length: nat, stopped: bool)

  /** One round of the loop, on file `k`. */
  function FileStep(fs: seq<FileInfo>, cur: Cursor, k: nat, data: bytes): Cursor
    requires |cur.contents| == |fs| && k < |fs|
    requires cur.off + cur.length == |data|
  {
    var i := fs[k];
    if cur.stopped then cur
    else if cur.beginPos < i.begin then cur.(stopped := true)
    else if cur.beginPos >= i.begin + i.length then cur
    else
      var room := i.begin + i.length - cur.beginPos;
      var amount := if room > cur.length then cur.length else room;
      Cursor(cur.contents[k := FileWrite(cur.contents[k], cur.beginPos - i.begin, data[cur.off..cur.off + amount])],
             cur.beginPos + amount, cur.off + amount, cur.length - amount, false)
  }

  /** What holds before round `k` of a write of `data` at flat position `at`. */
  ghost predicate Writing(fs: seq<FileInfo>, cur: Cursor, k: nat, at: nat, data: bytes)
  {
    && |cur.contents| == |fs| && k <= |fs|
    && cur.off + cur.length == |data|
    && cur.beginPos == at + cur.off
    && (cur.stopped ==> cur.length == 0)
    && (cur.length > 0 ==> cur.beginPos >= TotalLength(fs[..k]))
    && (cur.off > 0 ==> cur.beginPos <= TotalLength(fs))
  }

  // The bookkeeping of one round: off + length is conserved and beginPos advances with off.
  lemma {:induction false} FileStepCounts(fs: seq<FileInfo>, cur: Cursor, k: nat, at: nat, data: bytes)
    requires Contiguous(fs) && k < |fs| && Writing(fs, cur, k, at, data)
    ensures var cur' := FileStep(fs, cur, k, data);
            && Writing(fs, cur', k + 1, at, data)
            && cur.off <= cur'.off
            && (cur.off < cur'.off ==> fs[k].begin <= cur.beginPos && cur'.beginPos <= fs[k].begin + fs[k].length)
  {
    hide FileWrite;
    NextBegin(fs, k);
  }

  /** No file is longer than it should be. */
  predicate Within(fs: seq<FileInfo>, cs: seq<bytes>) {
    |cs| == |fs| && forall k :: 0 <= k < |fs| ==> |cs[k]| <= fs[k].length
  }

  /** A round never makes a file longer than it should be. */
  lemma {:induction false} FileStepWithin(fs: seq<FileInfo>, cur: Cursor, k: nat, data: bytes)
    requires Within(fs, cur.contents) && k < |fs| && cur.off + cur.length == |data|
    ensures Within(fs, FileStep(fs, cur, k, data).contents)
  {
    FileStepShape(fs, cur, k, data);
    var cur' := FileStep(fs, cur, k, data);
    if cur.off != cur'.off {
      FileWriteIs(cur.contents[k], cur.beginPos - fs[k].begin, data[cur.off..cur'.off]);
    }
    hide FileStep, FileWrite;
  }

  /** How many of the `n` bytes at flat position `at` lie in the first `k` files. */
  function Reached(fs: seq<FileInfo>, at: nat, n: nat, k: nat): (r: nat)
    requires k <= |fs|
    ensures r <= n
  {
    var end := TotalLength(fs[..k]);
    if end <= at then 0 else if end - at <= n then end - at else n
  }

  /** After round `k` exactly the bytes that lie in the files up to `k` have been written. */
  lemma {:induction false} FileStepReaches(fs: seq<FileInfo>, cur: Cursor, k: nat, at: nat, data: bytes)
    requires Contiguous(fs) && k < |fs| && Writing(fs, cur, k, at, data)
    requires cur.off == Reached(fs, at, |data|, k)
    ensures FileStep(fs, cur, k, data).off == Reached(fs, at, |data|, k + 1)
  {
    hide FileWrite, TotalLength;
    NextBegin(fs, k);
  }

  // A round either writes nothing or writes the next chunk at beginPos, inside file k.
  lemma {:induction false} FileStepShape(fs: seq<FileInfo>, cur: Cursor, k: nat, data: bytes)
    requires |cur.contents| == |fs| && k < |fs| && cur.off + cur.length == |data|
    ensures var cur' := FileStep(fs, cur, k, data);
            && cur.off <= cur'.off <= |data| && |cur'.contents| == |fs| && cur'.off + cur'.length == |data|
            && if cur.off == cur'.off then cur'.contents == cur.contents
               else var at := cur.beginPos - fs[k].begin;
                    && at >= 0 && at + (cur'.off - cur.off) <= fs[k].length
                    && cur'.contents == cur.contents[k := FileWrite(cur.contents[k], at, data[cur.off..cur'.off])]
  {
    var cur' := FileStep(fs, cur, k, data);
    if cur.off == cur'.off {
      assert data[cur.off..cur'.off] == [];
      assert cur.contents[k := cur.contents[k]] == cur.contents;
    }
  }

  /** Where a round writes: `[beginPos, beginPos + written)` of the flat image. */
  lemma {:induction false} FileStepWrites(fs: seq<FileInfo>, cur: Cursor, k: nat, at: nat, data: bytes)
    requires Contiguous(fs) && k < |fs| && Writing(fs, cur, k, at, data)
    ensures var cur' := FileStep(fs, cur, k, data);
            && cur.off <= cur'.off <= |data| && |cur'.contents| == |fs|
            && Image(fs, cur'.contents) == Overlay(Image(fs, cur.contents), cur.beginPos, data[cur.off..cur'.off])
  {
    hide Overlay, Image, FileWrite, TotalLength, FileStep;
    FileStepShape(fs, cur, k, data);
    var cur' := FileStep(fs, cur, k, data);
    if cur.off < cur'.off {
      ImageWrite(fs, cur.contents, k, cur.beginPos - fs[k].begin, data[cur.off..cur'.off]);
    } else {
      assert data[cur.off..cur'.off] == [];
      OverlayNone(Image(fs, cur.contents), cur.beginPos);
    }
  }

  // No file shrinks, and the file of the round now reaches up to beginPos.
  lemma {:induction false} FileStepGrows(fs: seq<FileInfo>, cur: Cursor, k: nat, at: nat, data: bytes)
    requires k < |fs| && Writing(fs, cur, k, at, data)
    ensures var cur' := FileStep(fs, cur, k, data);
            && |cur'.contents| == |fs|
            && (forall j :: 0 <= j < |fs| ==> |cur'.contents[j]| >= |cur.contents[j]|)
            && (cur.off < cur'.off ==> |cur'.contents[k]| >= cur'.beginPos - fs[k].begin)
  {
    hide TotalLength, Overlay, Zeros;
  }

  // Files before k end before beginPos, files after k start behind what round k wrote.
  lemma {:induction false} FileStepBacksFile(fs: seq<FileInfo>, cur: Cursor, k: nat, at: nat, data: bytes, j: nat)
    requires Contiguous(fs) && k < |fs| && j < |fs| && Writing(fs, cur, k, at, data)
    requires FileBacked(fs[j], |cur.contents[j]|, at, at + cur.off)
    ensures var cur' := FileStep(fs, cur, k, data);
            |cur'.contents| == |fs| && FileBacked(fs[j], |cur'.contents[j]|, at, at + cur'.off)
  {
    hide FileStep, Image, Overlay, TotalLength;
    FileStepCounts(fs, cur, k, at, data);
    FileStepGrows(fs, cur, k, at, data);
    NextBegin(fs, j);
    NextBegin(fs, k);
    if j < k {
      TotalLengthMonotone(fs, j + 1, k);
    } else if k < j {
      TotalLengthMonotone(fs, k + 1, j);
    }
  }

  lemma {:induction false} FileStepBacks(fs: seq<FileInfo>, cur: Cursor, k: nat, at: nat, data: bytes)
    requires Contiguous(fs) && k < |fs| && Writing(fs, cur, k, at, data)
    requires Backed(fs, cur.contents, at, at + cur.off)
    ensures var cur' := FileStep(fs, cur, k, data);
            |cur'.contents| == |fs| && Backed(fs, cur'.contents, at, at + cur'.off)
  {
    hide FileStep, Contiguous, FileBacked, TotalLength;
    FileStepGrows(fs, cur, k, at, data);
    forall j | 0 <= j < |fs|
      ensures FileBacked(fs[j], |FileStep(fs, cur, k, data).contents[j]|, at, at + FileStep(fs, cur, k, data).off)
    {
      FileStepBacksFile(fs, cur, k, at, data, j);
    }
  }

  /** All rounds from `k` on. */
  function WriteFrom(fs: seq<FileInfo>, cur: Cursor, k: nat, data: bytes): (r: Cursor)
    requires |cur.contents| == |fs| && k <= |fs|
    requires cur.off + cur.length == |data|
    ensures |r.contents| == |fs| && r.off + r.length == |data|
    decreases |fs| - k
  {
    if k == |fs| then cur else WriteFrom(fs, FileStep(fs, cur, k, data), k + 1, data)
  }

  function StartWrite(cs: seq<bytes>, at: nat, data: bytes): Cursor {
    Cursor(cs, at, 0, |data|, false)
  }

  /** The contents of all files after `data` was written at flat position `at`. */
  function WriteAcross(fs: seq<FileInfo>, cs: seq<bytes>, at: nat, data: bytes): (r: seq<bytes>)
    requires |fs| == |cs|
    ensures |r| == |fs|
  {
    WriteFrom(fs, StartWrite(cs, at, data), 0, data).contents
  }

  lemma {:induction false} WriteFromOverlays(fs: seq<FileInfo>, cs: seq<bytes>, cur: Cursor, k: nat, at: nat, data: bytes)
    requires Contiguous(fs) && |cs| == |fs| && Writing(fs, cur, k, at, data)
    requires Image(fs, cur.contents) == Overlay(Image(fs, cs), at, data[..cur.off])
    requires Backed(fs, cur.contents, at, at + cur.off)
    ensures var r := WriteFrom(fs, cur, k, data);
            && Writing(fs, r, |fs|, at, data)
            && Image(fs, r.contents) == Overlay(Image(fs, cs), at, data[..r.off])
            && Backed(fs, r.contents, at, at + r.off)
            && (forall j :: 0 <= j < |fs| ==> |r.contents[j]| >= |cur.contents[j]|)
    decreases |fs| - k
  {
    hide Image, Overlay, FileStep, Backed, Contiguous;
    if k == |fs| {
    } else {
      var cur' := FileStep(fs, cur, k, data);
      FileStepCounts(fs, cur, k, at, data);
      FileStepWrites(fs, cur, k, at, data);
      FileStepGrows(fs, cur, k, at, data);
      FileStepBacks(fs, cur, k, at, data);
      OverlayAdjacent(Image(fs, cs), at, data, cur.off, cur'.off);
      WriteFromOverlays(fs, cs, cur', k + 1, at, data);
    }
  }

  // A prefix of d that reaches the end of s overlays all that fits.
  lemma {:induction false} OverlayPrefix(s: bytes, at: nat, d: bytes, m: nat)
    requires m <= |d|
    requires m == |d| || at + m >= |s|
    ensures Overlay(s, at, d[..m]) == Overlay(s, at, d)
  {
  }

  // Past the last file there is nothing left to back.
  lemma {:induction false} BackedPastEnd(fs: seq<FileInfo>, cs: seq<bytes>, lo: nat, mid: nat, hi: nat)
    requires Contiguous(fs) && |fs| == |cs| && Backed(fs, cs, lo, mid)
    requires mid == hi || mid >= TotalLength(fs)
    ensures Backed(fs, cs, lo, hi)
  {
    forall j | 0 <= j < |fs|
      ensures FileBacked(fs[j], |cs[j]|, lo, hi)
    {
      assert FileBacked(fs[j], |cs[j]|, lo, mid);
      NextBegin(fs, j);
    }
  }

  /**
   The split write is a flat overlay, for every position, block and layout: pieces over many
   files, empty files, and blocks that stick out past the last file included.
   */
  lemma {:induction false} WriteAcrossIsOverlay(fs: seq<FileInfo>, cs: seq<bytes>, at: nat, data: bytes)
    requires Contiguous(fs) && |fs| == |cs|
    ensures var r := WriteAcross(fs, cs, at, data);
            && Image(fs, r) == Overlay(Image(fs, cs), at, data)
            && Backed(fs, r, at, at + |data|)
            && (forall j :: 0 <= j < |fs| ==> |r[j]| >= |cs[j]|)
  {
    hide Image, Overlay, Backed, Contiguous, WriteFrom;
    var start := StartWrite(cs, at, data);
    assert data[..0] == [];
    OverlayNone(Image(fs, cs), at);
    BackedNowhere(fs, cs, at);
    WriteFromOverlays(fs, cs, start, 0, at, data);
    var r := WriteFrom(fs, start, 0, data);
    assert fs[..|fs|] == fs;
    if r.length == 0 {
      assert data[..r.off] == data;
    } else {
      OverlayPrefix(Image(fs, cs), at, data, r.off);
      BackedPastEnd(fs, r.contents, at, at + r.off, at + |data|);
    }
  }

  lemma {:induction false} BackedNowhere(fs: seq<FileInfo>, cs: seq<bytes>, lo: nat)
    requires |fs| == |cs|
    ensures Backed(fs, cs, lo, lo)
  {
  }

  /** A block that fits is read back after the write. */
  lemma {:induction false} WriteAcrossHolds(fs: seq<FileInfo>, cs: seq<bytes>, at: nat, data: bytes)
    requires Contiguous(fs) && |fs| == |cs| && at + |data| <= TotalLength(fs)
    ensures Holds(fs, WriteAcross(fs, cs, at, data), at, data)
  {
    hide Image, Overlay, Backed, Contiguous, WriteAcross;
    WriteAcrossIsOverlay(fs, cs, at, data);
    OverlayReads(Image(fs, cs), at, data);
  }

  lemma {:induction false} BackedGrows(fs: seq<FileInfo>, cs: seq<bytes>, cs': seq<bytes>, lo: nat, hi: nat)
    requires |fs| == |cs| == |cs'|
    requires forall j :: 0 <= j < |fs| ==> |cs'[j]| >= |cs[j]|
    requires Backed(fs, cs, lo, hi)
    ensures Backed(fs, cs', lo, hi)
  {
    forall j | 0 <= j < |fs|
      ensures FileBacked(fs[j], |cs'[j]|, lo, hi)
    {
      assert FileBacked(fs[j], |cs[j]|, lo, hi);
    }
  }

  /** One round of a write leaves every range that the block does not touch as it was. */
  lemma {:induction false} FileStepKeeps(fs: seq<FileInfo>, cur: Cursor, k: nat, at: nat, data: bytes, other: nat, d: bytes)
    requires Contiguous(fs) && k < |fs| && Writing(fs, cur, k, at, data)
    requires Holds(fs, cur.contents, other, d)
    requires other + |d| <= at || at + |data| <= other
    ensures |FileStep(fs, cur, k, data).contents| == |fs|
    ensures Holds(fs, FileStep(fs, cur, k, data).contents, other, d)
  {
    hide Image, Overlay, Backed, Contiguous, FileStep;
    FileStepWrites(fs, cur, k, at, data);
    FileStepGrows(fs, cur, k, at, data);
    var cur' := FileStep(fs, cur, k, data);
    OverlayKeeps(Image(fs, cur.contents), cur.beginPos, data[cur.off..cur'.off], other, other + |d|);
    BackedGrows(fs, cur.contents, cur'.contents, other, other + |d|);
  }

  /** One round extends what is already on disk of the block being written. */
  lemma {:induction false} FileStepExtends(fs: seq<FileInfo>, cur: Cursor, k: nat, at: nat, data: bytes)
    requires Contiguous(fs) && k < |fs| && Writing(fs, cur, k, at, data)
    requires at + |data| <= TotalLength(fs)
    requires Holds(fs, cur.contents, at, data[..cur.off])
    ensures var cur' := FileStep(fs, cur, k, data);
            cur'.off <= |data| && |cur'.contents| == |fs| && Holds(fs, cur'.contents, at, data[..cur'.off])
  {
    hide Image, Overlay, Backed, Contiguous, FileStep;
    FileStepWrites(fs, cur, k, at, data);
    FileStepBacks(fs, cur, k, at, data);
    OverlayExtends(Image(fs, cur.contents), at, data, cur.off, FileStep(fs, cur, k, data).off);
  }

  /** One round over a block that was on disk before: the new bytes reach up to `off`, the old ones follow. */
  lemma {:induction false} FileStepSplices(fs: seq<FileInfo>, cur: Cursor, k: nat, at: nat, data: bytes, before: bytes)
    requires Contiguous(fs) && k < |fs| && Writing(fs, cur, k, at, data)
    requires |before| == |data| && cur.off <= |data|
    requires Holds(fs, cur.contents, at, Mixed(data, before, cur.off))
    ensures var cur' := FileStep(fs, cur, k, data);
            && cur'.off <= |data| && |cur'.contents| == |fs|
            && Holds(fs, cur'.contents, at, Mixed(data, before, cur'.off))
  {
    hide Image, Overlay, Backed, Contiguous, FileStep, Mixed;
    FileStepWrites(fs, cur, k, at, data);
    FileStepGrows(fs, cur, k, at, data);
    var cur' := FileStep(fs, cur, k, data);
    OverlaySplices(Image(fs, cur.contents), at, data, before, cur.off, cur'.off);
    BackedGrows(fs, cur.contents, cur'.contents, at, at + |data|);
  }
}
