/**
 How ctorrent/peer.cpp cuts a piece into block requests: the loop shared by `requestPiece` and
 `cancelPiece`, and the block count of `sendPieceRequest`.
 */
module Tiling {
  import opened Bytes
  import opened Pieces

  datatype Tile = Tile(begin: nat, length: nat)

  /** The loop from `begin` on, with `length` bytes left. */
  function TilesFrom(begin: nat, length: nat, max: nat): (r: seq<Tile>)
    requires max > 0
    ensures r != []
    decreases length
  {
    if length > max then [Tile(begin, max)] + TilesFrom(begin + max, length - max, max) else [Tile(begin, length)]
  }

  /** The blocks requested for a piece of `size` bytes. */
  function Tiles(size: nat, max: nat): seq<Tile>
    requires max > 0
  {
    TilesFrom(0, size, max)
  }

  function Min(a: nat, b: nat): nat { if a < b then a else b }

  /** The bytes of block `k`. */
  function Block(piece: bytes, max: nat, k: nat): bytes
    requires max > 0
  {
    if k * max <= |piece| then piece[k * max..Min((k + 1) * max, |piece|)] else []
  }

  lemma {:induction false} MulStep(k: nat, max: nat)
    ensures (k + 1) * max == k * max + max
  {
  }

  lemma {:induction false} CeilStep(length: nat, max: nat)
    requires max > 0 && length > max
    ensures CeilDiv(length, max) == CeilDiv(length - max, max) + 1
  {
    CeilDivBounds(length, max);
    CeilDivBounds(length - max, max);
    CeilUnique(length, max, CeilDiv(length - max, max) + 1);
  }

  // The quotient rounded up is the only n with (n - 1) * b < a <= n * b.
  lemma {:induction false} CeilUnique(a: nat, b: nat, n: nat)
    requires a > 0 && b > 0 && n >= 1
    requires (n - 1) * b < a <= n * b
    ensures CeilDiv(a, b) == n
  {
    CeilDivBounds(a, b);
    hide CeilDiv;
    var m := CeilDiv(a, b);
    if m < n {
      MulMonotone(m, n - 1, b);
    } else if n < m {
      MulMonotone(n, m - 1, b);
    }
  }

  /** Block k starts at k * max, is not empty and at most max long; their number is the size over max, rounded up. */
  lemma {:induction false} TilesFromShape(begin: nat, length: nat, max: nat)
    requires max > 0 && length > 0
    ensures var ts := TilesFrom(begin, length, max);
            && |ts| == CeilDiv(length, max)
            && forall k :: 0 <= k < |ts| ==>
                 && ts[k].begin == begin + k * max
                 && k * max < length
                 && ts[k].length == Min(max, length - k * max)
    decreases length
  {
    hide CeilDiv;
    var ts := TilesFrom(begin, length, max);
    if length > max {
      CeilStep(length, max);
      TilesFromShape(begin + max, length - max, max);
      forall k | 0 <= k < |ts|
        ensures ts[k].begin == begin + k * max && k * max < length && ts[k].length == Min(max, length - k * max)
      {
        if k > 0 {
          MulStep(k - 1, max);
          assert ts[k] == TilesFrom(begin + max, length - max, max)[k - 1];
        }
      }
    } else {
      CeilUnique(length, max, 1);
    }
  }

  /**
   The requests for a piece: as many as the block count, each non-empty, at most max bytes and
   inside the piece, and `begin / max` numbers them 0, 1, 2, ...
   */
  lemma {:induction false} TilesShape(size: nat, max: nat)
    requires max > 0 && size > 0
    ensures var ts := Tiles(size, max);
            && |ts| == CeilDiv(size, max)
            && forall k :: 0 <= k < |ts| ==>
                 && ts[k].begin == k * max && ts[k].begin / max == k
                 && 0 < ts[k].length <= max
                 && ts[k].begin + ts[k].length <= size
  {
    hide CeilDiv;
    TilesFromShape(0, size, max);
    forall k | 0 <= k < |Tiles(size, max)|
      ensures (k * max) / max == k
    {
      MultiplePlusMod(k, max, 0);
    }
  }

  // Every byte is in the block its position falls into.
  lemma {:induction false} TileOf(size: nat, max: nat, g: nat) returns (k: nat)
    requires max > 0 && g < size
    ensures k < |Tiles(size, max)| && InTile(Tiles(size, max)[k], g)
  {
    hide *;
    k := g / max;
    QuotientBounds(g, max);
    TileAround(size, max, g, k);
  }

  lemma {:induction false} TileAround(size: nat, max: nat, g: nat, k: nat)
    requires max > 0 && g < size && k * max <= g < (k + 1) * max
    ensures k < |Tiles(size, max)| && InTile(Tiles(size, max)[k], g)
  {
    TilesFromShape(0, size, max);
    CeilDivBounds(size, max);
    hide CeilDiv, TilesFrom;
    MulStep(k, max);
    if k >= CeilDiv(size, max) {
      MulMonotone(CeilDiv(size, max), k, max);
    }
  }

  // Two blocks that share a byte are the same block.
  lemma {:induction false} TilesDisjoint(size: nat, max: nat, j: nat, k: nat)
    requires max > 0 && size > 0 && j < k < |Tiles(size, max)|
    ensures Tiles(size, max)[j].begin + Tiles(size, max)[j].length <= Tiles(size, max)[k].begin
  {
    TilesFromShape(0, size, max);
    MulMonotone(j + 1, k, max);
    MulStep(j, max);
  }

  /** The requests cover every byte of the piece exactly once. */
  lemma {:induction false} TilesPartition(size: nat, max: nat, g: nat)
    requires max > 0 && g < size
    ensures exists k: nat :: k < |Tiles(size, max)| && InTile(Tiles(size, max)[k], g)
    ensures forall j: nat, k: nat | j < |Tiles(size, max)| && k < |Tiles(size, max)| ::
              InTile(Tiles(size, max)[j], g) && InTile(Tiles(size, max)[k], g) ==> j == k
  {
    var i := TileOf(size, max, g);
    hide Tiles;
    forall j: nat, k: nat | j < |Tiles(size, max)| && k < |Tiles(size, max)|
              && InTile(Tiles(size, max)[j], g) && InTile(Tiles(size, max)[k], g)
      ensures j == k
    {
      if j < k {
        TilesDisjoint(size, max, j, k);
      } else if k < j {
        TilesDisjoint(size, max, k, j);
      }
    }
  }

  predicate InTile(t: Tile, g: nat) {
    t.begin <= g < t.begin + t.length
  }

  // ---------- Putting the blocks together ----------

  /** The blocks in slot order, one behind the other. */
  function Flatten(blocks: seq<bytes>): bytes {
    if blocks == [] then [] else Flatten(blocks[..|blocks| - 1]) + blocks[|blocks| - 1]
  }

  lemma {:induction false} FlattenBound(blocks: seq<bytes>, max: nat)
    requires forall k :: 0 <= k < |blocks| ==> |blocks[k]| <= max
    ensures |Flatten(blocks)| <= |blocks| * max
  {
    if blocks == [] {
    } else {
      FlattenBound(blocks[..|blocks| - 1], max);
      MulStep(|blocks| - 1, max);
    }
  }

  // A prefix of whole blocks and the block behind it.
  lemma {:induction false} BlockAppend(piece: bytes, max: nat, n: nat)
    requires max > 0 && n * max < |piece|
    ensures piece[..n * max] + Block(piece, max, n) == piece[..Min((n + 1) * max, |piece|)]
  {
    MulStep(n, max);
    var at := n * max;
    assert piece[..at] + piece[at..Min(at + max, |piece|)] == piece[..Min(at + max, |piece|)];
  }

  lemma {:induction false} FlattenBlocksBelow(piece: bytes, max: nat, blocks: seq<bytes>)
    requires max > 0
    requires |blocks| > 0 ==> (|blocks| - 1) * max < |piece|
    requires forall k :: 0 <= k < |blocks| ==> blocks[k] == Block(piece, max, k)
    ensures Flatten(blocks) == piece[..Min(|blocks| * max, |piece|)]
  {
    hide Block;
    if blocks == [] {
    } else {
      var n := |blocks| - 1;
      if n > 0 {
        MulMonotone(n - 1, n, max);
      }
      BlockAppend(piece, max, n);
      FlattenBlocksBelow(piece, max, blocks[..n]);
    }
  }

  /** All blocks of a piece in slot order are the piece. */
  lemma {:induction false} FlattenBlocks(piece: bytes, max: nat, blocks: seq<bytes>)
    requires max > 0 && piece != []
    requires |blocks| == CeilDiv(|piece|, max)
    requires forall k :: 0 <= k < |blocks| ==> blocks[k] == Block(piece, max, k)
    ensures Flatten(blocks) == piece
  {
    CeilDivBounds(|piece|, max);
    FlattenBlocksBelow(piece, max, blocks);
  }

  lemma {:induction false} BlockShape(piece: bytes, max: nat, k: nat)
    requires max > 0 && piece != [] && k < CeilDiv(|piece|, max)
    ensures k * max < |piece|
    ensures 0 < |Block(piece, max, k)| <= max
    ensures (k * max) / max == k
  {
    CeilDivBounds(|piece|, max);
    hide CeilDiv;
    MulMonotone(k, CeilDiv(|piece|, max) - 1, max);
    MulStep(k, max);
    MultiplePlusMod(k, max, 0);
  }
}
