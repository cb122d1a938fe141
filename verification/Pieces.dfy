/**
 Piece geometry of ctorrent/torrentfilemanager.cpp: piece lengths, piece ranges in the flat
 image of all files, and the sums the progress figures are made of.
 */
module Pieces {
  import opened Bytes
  import opened Layout

  /**
   What the file manager knows about a torrent. `hashOK(i, d)` is the outcome of comparing the
   digest of `d` with the stored digest of piece `i`.
   */
  datatype Meta = Meta(pieceLength: nat, files: seq<FileInfo>, numPieces: nat, hashOK: (nat, bytes) -> bool)
  {
    function Total(): nat { TotalLength(files) }
  }

  function CeilDiv(a: nat, b: nat): nat
    requires b > 0
  {
    (a + b - 1) / b
  }

  /** `last_piece_length`. */
  function LastPieceLength(m: Meta): nat
    requires m.pieceLength > 0
  {
    var r := m.Total() % m.pieceLength;
    if r != 0 then r else m.pieceLength
  }

  /** `piece_length`. */
  function PieceLength(m: Meta, index: nat): nat
    requires m.pieceLength > 0
  {
    if index == m.numPieces - 1 then LastPieceLength(m) else m.pieceLength
  }

  function PieceBegin(m: Meta, index: nat): nat {
    index * m.pieceLength
  }

  /** A torrent with at least one byte, laid out contiguously, with one digest per piece. */
  ghost predicate WellFormed(m: Meta) {
    && Contiguous(m.files)
    && m.pieceLength > 0
    && m.Total() > 0
    && m.numPieces == CeilDiv(m.Total(), m.pieceLength)
  }

  /**
   A hash comparison that lets no data of a wrong length pass. The code compares five bytes of a
   SHA-1 digest and never looks at the length, so over all byte strings no real comparison is of
   this kind; results about runs only ask for the lengths of the data that occurs in the run.
   */
  ghost predicate HashFixesLength(m: Meta)
    requires m.pieceLength > 0
  {
    forall i: nat, d: bytes :: i < m.numPieces && m.hashOK(i, d) ==> |d| == PieceLength(m, i)
  }

  /** The bytes of piece `i` of the torrent `truth`. */
  function PieceOf(m: Meta, truth: bytes, i: nat): bytes
    requires WellFormed(m) && i < m.numPieces && |truth| == m.Total()
  {
    PieceFits(m, i);
    truth[PieceBegin(m, i)..PieceBegin(m, i) + PieceLength(m, i)]
  }

  /** A hash comparison that tells the pieces of the torrent `truth` from all other data. */
  ghost predicate HashFixesData(m: Meta, truth: bytes)
    requires WellFormed(m)
  {
    && |truth| == m.Total()
    && forall i: nat, d: bytes :: i < m.numPieces && m.hashOK(i, d) ==> d == PieceOf(m, truth, i)
  }

  lemma {:induction false} CeilDivBounds(a: nat, b: nat)
    requires a > 0 && b > 0
    ensures CeilDiv(a, b) >= 1
    ensures (CeilDiv(a, b) - 1) * b < a <= CeilDiv(a, b) * b
  {
    var n := CeilDiv(a, b);
    assert a + b - 1 == b * n + (a + b - 1) % b;
    MulSign(b, n);
    assert (n - 1) * b == n * b - b;
  }

  // What is left for the last of ceil(t / b) blocks of size b.
  lemma {:induction false} Remainder(t: nat, b: nat)
    requires t > 0 && b > 0
    ensures var n := CeilDiv(t, b);
            var rest := t - (n - 1) * b;
            && n >= 1 && 1 <= rest <= b
            && rest == if t % b != 0 then t % b else b
  {
    var n := CeilDiv(t, b);
    CeilDivBounds(t, b);
    hide CeilDiv;
    var rest := t - (n - 1) * b;
    assert (n - 1) * b == n * b - b;
    if rest == b {
      MultipleMod(n, b);
    } else {
      MultiplePlusMod(n - 1, b, rest);
    }
  }

  lemma {:induction false} LastPiece(m: Meta)
    requires WellFormed(m)
    ensures m.numPieces >= 1
    ensures PieceBegin(m, m.numPieces - 1) + LastPieceLength(m) == m.Total()
    ensures 1 <= LastPieceLength(m) <= m.pieceLength
  {
    Remainder(m.Total(), m.pieceLength);
    hide CeilDiv;
  }

  lemma {:induction false} MultipleMod(q: nat, b: nat)
    requires b > 0
    ensures (q * b) % b == 0
  {
    MultiplePlusMod(q, b, 0);
  }

  lemma {:induction false} MultiplePlusMod(q: nat, b: nat, r: nat)
    requires r < b
    ensures (q * b + r) % b == r && (q * b + r) / b == q
  {
    var x := q * b + r;
    assert x == b * (x / b) + x % b;
    var d := x / b - q;
    assert b * d == b * (x / b) - b * q;
    assert b * d == r - x % b;
    MulSign(b, d);
  }

  lemma {:induction false} MulSign(b: int, d: int)
    requires b > 0
    ensures d >= 1 ==> b * d >= b
    ensures d == 0 ==> b * d == 0
    ensures d <= -1 ==> b * d <= -b
  {
  }

  lemma {:induction false} MulMonotone(i: nat, j: nat, b: nat)
    requires i <= j
    ensures i * b <= j * b
  {
  }

  /** Every piece lies inside the image, and no piece is empty. */
  lemma {:induction false} PieceFits(m: Meta, i: nat)
    requires WellFormed(m) && i < m.numPieces
    ensures 1 <= PieceLength(m, i) <= m.pieceLength
    ensures PieceBegin(m, i) + PieceLength(m, i) <= m.Total()
  {
    LastPiece(m);
    if i < m.numPieces - 1 {
      MulMonotone(i + 1, m.numPieces - 1, m.pieceLength);
      assert (i + 1) * m.pieceLength == i * m.pieceLength + m.pieceLength;
    }
  }

  /** The pieces stand one behind the other from the start of the torrent, and all but the last have the full length. */
  lemma {:induction false} PiecesAdjoin(m: Meta, i: nat)
    requires WellFormed(m) && i + 1 < m.numPieces
    ensures PieceBegin(m, 0) == 0 && PieceLength(m, i) == m.pieceLength
    ensures PieceBegin(m, i) + PieceLength(m, i) == PieceBegin(m, i + 1)
  {
    assert (i + 1) * m.pieceLength == i * m.pieceLength + m.pieceLength;
  }

  /** Ranges of different pieces do not meet. */
  lemma {:induction false} PiecesDisjoint(m: Meta, i: nat, j: nat)
    requires WellFormed(m) && i < j < m.numPieces
    ensures PieceBegin(m, i) + PieceLength(m, i) <= PieceBegin(m, j)
  {
    MulMonotone(i + 1, j, m.pieceLength);
    assert (i + 1) * m.pieceLength == i * m.pieceLength + m.pieceLength;
  }

  predicate InPiece(m: Meta, i: nat, g: nat)
    requires m.pieceLength > 0
  {
    PieceBegin(m, i) <= g < PieceBegin(m, i) + PieceLength(m, i)
  }

  lemma {:induction false} InPieceUnique(m: Meta, i: nat, j: nat, g: nat)
    requires WellFormed(m) && i < m.numPieces && j < m.numPieces
    requires InPiece(m, i, g) && InPiece(m, j, g)
    ensures i == j
  {
    if j < i {
      PiecesDisjoint(m, j, i);
    } else if i < j {
      PiecesDisjoint(m, i, j);
    }
  }

  lemma {:induction false} QuotientBounds(g: nat, b: nat)
    requires b > 0
    ensures (g / b) * b <= g < (g / b + 1) * b
  {
    assert g == b * (g / b) + g % b;
    assert (g / b + 1) * b == (g / b) * b + b;
  }

  lemma {:induction false} PieceOfByte(m: Meta, g: nat)
    requires WellFormed(m) && g < m.Total()
    ensures var i := g / m.pieceLength;
            i < m.numPieces && InPiece(m, i, g)
  {
    var b, i := m.pieceLength, g / m.pieceLength;
    QuotientBounds(g, b);
    CeilDivBounds(m.Total(), b);
    LastPiece(m);
    if i >= m.numPieces {
      MulMonotone(m.numPieces, i, b);
    }
    assert (i + 1) * b == i * b + b;
  }

  /** Every byte of the torrent belongs to exactly one piece. */
  lemma {:induction false} PiecesPartition(m: Meta, g: nat)
    requires WellFormed(m) && g < m.Total()
    ensures exists i: nat :: i < m.numPieces && InPiece(m, i, g)
    ensures forall i: nat, j: nat :: i < m.numPieces && j < m.numPieces && InPiece(m, i, g) && InPiece(m, j, g) ==> i == j
  {
    PieceOfByte(m, g);
    hide InPiece, WellFormed;
    assert InPiece(m, g / m.pieceLength, g);
    forall i: nat, j: nat | i < m.numPieces && j < m.numPieces && InPiece(m, i, g) && InPiece(m, j, g)
      ensures i == j
    {
      InPieceUnique(m, i, j, g);
    }
  }

  /** The first `n` indices. */
  ghost function Below(n: nat): (s: set<nat>)
    ensures forall i: nat :: i in s <==> i < n
    ensures |s| == n
  {
    if n == 0 then {} else Below(n - 1) + {n - 1}
  }

  // ---------- Sums of piece lengths ----------

  /** The bytes of the pieces below `k` that are in `s`. */
  ghost function BytesOf(m: Meta, s: set<nat>, k: nat): nat
    requires m.pieceLength > 0
  {
    if k == 0 then 0 else BytesOf(m, s, k - 1) + if k - 1 in s then PieceLength(m, k - 1) else 0
  }

  lemma {:induction false} BytesOfAllBelow(m: Meta, s: set<nat>, k: nat)
    requires WellFormed(m) && k < m.numPieces
    requires forall i: nat :: i < m.numPieces ==> i in s
    ensures BytesOf(m, s, k) == PieceBegin(m, k)
  {
    if k == 0 {
    } else {
      BytesOfAllBelow(m, s, k - 1);
      assert PieceBegin(m, k) == PieceBegin(m, k - 1) + m.pieceLength;
    }
  }

  /** All pieces together are the whole torrent. */
  lemma {:induction false} BytesOfAll(m: Meta, s: set<nat>)
    requires WellFormed(m)
    requires forall i: nat :: i < m.numPieces ==> i in s
    ensures BytesOf(m, s, m.numPieces) == m.Total()
  {
    LastPiece(m);
    BytesOfAllBelow(m, s, m.numPieces - 1);
  }

  /** One piece more adds its length. */
  lemma {:induction false} BytesOfAdd(m: Meta, s: set<nat>, i: nat, k: nat)
    requires m.pieceLength > 0 && i < k && i !in s
    ensures BytesOf(m, {}, k) == 0
    ensures BytesOf(m, s + {i}, k) == BytesOf(m, s, k) + PieceLength(m, i)
  {
    if k > 1 {
      if i < k - 1 {
        BytesOfAdd(m, s, i, k - 1);
      } else {
        BytesOfAgree(m, s + {i}, s, i);
        BytesOfAdd(m, {}, 0, i);
      }
    }
  }

  /** More pieces, more bytes. */
  lemma {:induction false} BytesOfMonotone(m: Meta, s: set<nat>, t: set<nat>, k: nat)
    requires m.pieceLength > 0 && s <= t
    ensures BytesOf(m, s, k) <= BytesOf(m, t, k)
  {
    if k == 0 {
    } else {
      BytesOfMonotone(m, s, t, k - 1);
    }
  }

  lemma {:induction false} BytesOfAgree(m: Meta, s: set<nat>, t: set<nat>, k: nat)
    requires m.pieceLength > 0
    requires forall i: nat :: i < k ==> (i in s <==> i in t)
    ensures BytesOf(m, s, k) == BytesOf(m, t, k)
  {
    if k == 0 {
    } else {
      BytesOfAgree(m, s, t, k - 1);
    }
  }

  /** No set of pieces has more bytes than the torrent. */
  lemma {:induction false} BytesOfBound(m: Meta, s: set<nat>)
    requires WellFormed(m)
    ensures BytesOf(m, s, m.numPieces) <= m.Total()
  {
    var all := s + Below(m.numPieces);
    BytesOfMonotone(m, s, all, m.numPieces);
    BytesOfAll(m, all);
  }
}
