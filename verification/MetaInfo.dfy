/**
 Reading a metainfo file, after ctorrent/torrentmeta.cpp: the bytes the info-hash is computed
 from, the list of piece digests, and the layout of the files.
 */
module MetaInfo {
  import opened Bytes
  import opened Wrappers
  import opened Serializer
  import opened BencodeSpec
  import opened BencodeRoundTrip
  import opened BencodeCanon
  import opened Layout
  import B = Bencode

  // ---------- `Bencode::cast` of a map entry: a missing or differently typed value is the default ----------

  function AsStr(v: Option<Value>): bytes {
    match v
    case Some(Str(s)) => s
    case _ => []
  }

  function AsUint(v: Option<Value>): uint64 {
    match v
    case Some(Int(n)) => n % TWO64
    case _ => 0
  }

  function AsDict(v: Option<Value>): seq<Entry> {
    match v
    case Some(Dict(es)) => es
    case _ => []
  }

  function AsList(v: Option<Value>): seq<Value> {
    match v
    case Some(List(items)) => items
    case _ => []
  }

  predicate Has(es: seq<Entry>, key: string) {
    Lookup(es, Ascii(key)).Some?
  }

  // ---------- Piece digests ----------

  datatype Sha1Sum = Sha1Sum(w0: uint32, w1: uint32, w2: uint32, w3: uint32, w4: uint32)

  /** Byte `k` of the `pieces` string; `past` is the memory behind the string. */
  function PieceByte(pieces: bytes, past: nat -> byte, k: nat): byte {
    if k < |pieces| then pieces[k] else past(k - |pieces|)
  }

  function Word(pieces: bytes, past: nat -> byte, k: nat): uint32 {
    FromBE32(PieceByte(pieces, past, k), PieceByte(pieces, past, k + 1),
             PieceByte(pieces, past, k + 2), PieceByte(pieces, past, k + 3))
  }

  function SumAt(pieces: bytes, past: nat -> byte, k: nat): Sha1Sum {
    Sha1Sum(Word(pieces, past, k), Word(pieces, past, k + 4), Word(pieces, past, k + 8),
            Word(pieces, past, k + 12), Word(pieces, past, k + 16))
  }

  /** The digest list as bytes again. */
  function SumBytes(d: Sha1Sum): bytes {
    BE32(d.w0) + BE32(d.w1) + BE32(d.w2) + BE32(d.w3) + BE32(d.w4)
  }

  function SumsBytes(ds: seq<Sha1Sum>): bytes {
    if ds == [] then [] else SumsBytes(ds[..|ds| - 1]) + SumBytes(ds[|ds| - 1])
  }

  lemma {:induction false} WordRoundTrip(pieces: bytes, past: nat -> byte, k: nat)
    requires k + 4 <= |pieces|
    ensures BE32(Word(pieces, past, k)) == pieces[k..k + 4]
  {
    hide BE32, FromBE32;
    BE32Bytes(pieces[k], pieces[k + 1], pieces[k + 2], pieces[k + 3]);
  }

  lemma {:induction false} SumRoundTrip(pieces: bytes, past: nat -> byte, k: nat)
    requires k + 20 <= |pieces|
    ensures SumBytes(SumAt(pieces, past, k)) == pieces[k..k + 20]
  {
    hide Word, BE32;
    WordRoundTrip(pieces, past, k);
    WordRoundTrip(pieces, past, k + 4);
    WordRoundTrip(pieces, past, k + 8);
    WordRoundTrip(pieces, past, k + 12);
    WordRoundTrip(pieces, past, k + 16);
    assert pieces[k..k + 20]
        == pieces[k..k + 4] + pieces[k + 4..k + 8] + pieces[k + 8..k + 12] + pieces[k + 12..k + 16] + pieces[k + 16..k + 20];
  }

  function Sums(pieces: bytes, past: nat -> byte, n: nat): (r: seq<Sha1Sum>)
    ensures |r| == n
  {
    seq(n, i requires 0 <= i < n => SumAt(pieces, past, 20 * i))
  }

  lemma {:induction false} SumsStep(pieces: bytes, past: nat -> byte, n: nat)
    ensures Sums(pieces, past, n + 1) == Sums(pieces, past, n) + [SumAt(pieces, past, 20 * n)]
  {
  }

  /** The digests cut the string into pieces of 20 bytes without loss. */
  lemma {:induction false} SumsRoundTrip(pieces: bytes, past: nat -> byte, n: nat)
    requires 20 * n <= |pieces|
    ensures SumsBytes(Sums(pieces, past, n)) == pieces[..20 * n]
  {
    hide SumAt, SumBytes, Sums;
    if n == 0 {
    } else {
      SumsStep(pieces, past, n - 1);
      SumsRoundTrip(pieces, past, n - 1);
      SumRoundTrip(pieces, past, 20 * (n - 1));
      var ds := Sums(pieces, past, n);
      assert ds[..n - 1] == Sums(pieces, past, n - 1);
      assert pieces[..20 * n] == pieces[..20 * (n - 1)] + pieces[20 * (n - 1)..20 * n];
    }
  }

  // ---------- Layout ----------

  /** The `length` of each file description, for the two shapes `files` may have. */
  function FileLengths(v: Value): Option<seq<nat>> {
    match v
    case List(items) => Some(seq(|items|, i requires 0 <= i < |items| => LengthOf(items[i])))
    case Dict(es) => Some(seq(|es|, i requires 0 <= i < |es| => LengthOf(es[i].value)))
    case _ => None
  }

  function LengthOf(v: Value): nat {
    AsUint(Lookup(AsDict(Some(v)), Ascii("length")))
  }

  // ---------- Paths ----------

  /** `PATH_SEP` outside Windows. */
  const PATH_SEP: byte := 0x2f

  /** The components of the path of each file description. */
  function PathLists(v: Value): seq<seq<bytes>> {
    match v
    case List(items) => seq(|items|, i requires 0 <= i < |items| => PathOf(items[i]))
    case Dict(es) => seq(|es|, i requires 0 <= i < |es| => PathOf(es[i].value))
    case _ => []
  }

  function PathOf(v: Value): seq<bytes> {
    var parts := AsList(Lookup(AsDict(Some(v)), Ascii("path")));
    seq(|parts|, i requires 0 <= i < |parts| => AsStr(Some(parts[i])))
  }

  /** The path that the loop of `parseFile` builds: a separator goes in front of a component unless the path is still empty. */
  function JoinPath(parts: seq<bytes>): bytes {
    if parts == [] then []
    else
      var front := JoinPath(parts[..|parts| - 1]);
      (if front == [] then [] else front + [PATH_SEP]) + parts[|parts| - 1]
  }

  function JoinPaths(lists: seq<seq<bytes>>): (r: seq<bytes>)
    ensures |r| == |lists|
  {
    seq(|lists|, i requires 0 <= i < |lists| => JoinPath(lists[i]))
  }

  /** The components between the separators of a path. */
  function SplitPath(path: bytes): seq<bytes>
    decreases |path|
  {
    var p := Find(path, 0, PATH_SEP);
    if p >= |path| then (if path == [] then [] else [path]) else [path[..p]] + SplitPath(path[p + 1..])
  }

  predicate Plain(part: bytes) {
    part != [] && PATH_SEP !in part
  }

  lemma {:induction false} FindSkips(a: bytes, b: bytes, pos: nat)
    requires pos <= |a| && PATH_SEP !in a
    ensures Find(a + b, pos, PATH_SEP) == Find(a + b, |a|, PATH_SEP)
    decreases |a| - pos
  {
    if pos < |a| {
      assert (a + b)[pos] == a[pos];
      FindSkips(a, b, pos + 1);
    }
  }

  lemma {:induction false} SplitFirst(part: bytes, rest: bytes)
    requires Plain(part)
    ensures SplitPath(part + [PATH_SEP] + rest) == [part] + SplitPath(rest)
    ensures SplitPath(part) == [part]
  {
    FindSkips(part, [PATH_SEP] + rest, 0);
    assert part + ([PATH_SEP] + rest) == part + [PATH_SEP] + rest;
    FindSkips(part, [], 0);
    assert part + [] == part;
  }

  lemma {:induction false} JoinPathFront(parts: seq<bytes>)
    requires |parts| > 1 && forall i :: 0 <= i < |parts| ==> Plain(parts[i])
    ensures JoinPath(parts) == parts[0] + [PATH_SEP] + JoinPath(parts[1..])
    decreases |parts|
  {
    hide Plain;
    var n := |parts| - 1;
    var front := parts[..n];
    assert parts[1..][..n - 1] == front[1..] && parts[1..][n - 1] == parts[n];
    PlainIsNotEmpty(parts[0]);
    if n == 1 {
      assert front == [parts[0]] && front[..0] == [];
      assert JoinPath(front) == parts[0];
    } else {
      JoinPathFront(front);
      JoinPathNotEmpty(front[1..]);
    }
  }

  lemma {:induction false} PlainIsNotEmpty(part: bytes)
    requires Plain(part)
    ensures part != []
  {
  }

  lemma {:induction false} JoinPathNotEmpty(parts: seq<bytes>)
    requires parts != [] && forall i :: 0 <= i < |parts| ==> Plain(parts[i])
    ensures JoinPath(parts) != []
  {
    PlainIsNotEmpty(parts[|parts| - 1]);
  }

  /** The path can be taken apart again: non-empty components without a separator are exactly what stands between the separators. */
  lemma {:induction false} PathRoundTrip(parts: seq<bytes>)
    requires forall i :: 0 <= i < |parts| ==> Plain(parts[i])
    ensures SplitPath(JoinPath(parts)) == parts
    decreases |parts|
  {
    hide Plain, SplitPath;
    if parts == [] {
      NoPath();
    } else if |parts| == 1 {
      OnePart(parts[0]);
      assert parts == [parts[0]];
      SplitFirst(parts[0], []);
    } else {
      JoinPathFront(parts);
      SplitFirst(parts[0], JoinPath(parts[1..]));
      PathRoundTrip(parts[1..]);
    }
  }

  lemma {:induction false} OnePart(part: bytes)
    ensures JoinPath([part]) == part
  {
    assert [part][..0] == [];
    assert [] + part == part;
  }

  lemma {:induction false} NoPath()
    ensures JoinPath([]) == [] && SplitPath([]) == []
  {
  }

  // ---------- Sums of lengths ----------

  function SumOf(ls: seq<nat>): nat {
    if ls == [] then 0 else SumOf(ls[..|ls| - 1]) + ls[|ls| - 1]
  }

  /** What `parseFile` makes of these lengths, with `size_t` sums that wrap at 2^64. */
  function LayOut(ls: seq<nat>): (fs: seq<FileInfo>)
    ensures |fs| == |ls|
  {
    seq(|ls|, k requires 0 <= k < |ls| => FileInfo(k, SumOf(ls[..k]) % TWO64, ls[k]))
  }

  lemma {:induction false} LayOutStep(ls: seq<nat>, k: nat)
    requires k < |ls|
    ensures LayOut(ls[..k + 1]) == LayOut(ls[..k]) + [FileInfo(k, SumOf(ls[..k]) % TWO64, ls[k])]
    ensures SumOf(ls[..k + 1]) == SumOf(ls[..k]) + ls[k]
  {
    assert ls[..k + 1][..k] == ls[..k];
    assert forall j :: 0 <= j <= k ==> ls[..k + 1][..j] == ls[..j];
    assert forall j :: 0 <= j <= k ==> ls[..k][..j] == ls[..j];
  }

  lemma {:induction false} LayOutTotal(ls: seq<nat>)
    ensures TotalLength(LayOut(ls)) == SumOf(ls)
    decreases |ls|
  {
    if ls == [] {
    } else {
      var n := |ls| - 1;
      assert ls[..n + 1] == ls;
      LayOutStep(ls, n);
      LayOutTotal(ls[..n]);
      assert LayOut(ls)[..n] == LayOut(ls[..n]);
    }
  }

  lemma {:induction false} SumOfMonotone(ls: seq<nat>, k: nat)
    requires k <= |ls|
    ensures SumOf(ls[..k]) <= SumOf(ls)
    decreases |ls|
  {
    if k == |ls| {
      assert ls[..k] == ls;
    } else {
      SumOfMonotone(ls[..|ls| - 1], k);
      assert ls[..|ls| - 1][..k] == ls[..k];
    }
  }

  lemma {:induction false} LayOutPrefix(ls: seq<nat>, k: nat)
    requires k <= |ls|
    ensures LayOut(ls)[..k] == LayOut(ls[..k])
  {
    assert forall j :: 0 <= j < k ==> ls[..k][..j] == ls[..j];
  }

  lemma {:induction false} LayOutAt(ls: seq<nat>, k: nat)
    requires k < |ls|
    ensures TotalLength(LayOut(ls)[..k]) == SumOf(ls[..k])
    ensures LayOut(ls)[k].index == k && LayOut(ls)[k].begin == SumOf(ls[..k]) % TWO64
    ensures SumOf(ls[..k]) <= SumOf(ls[..|ls| - 1])
  {
    hide SumOf;
    LayOutPrefix(ls, k);
    LayOutTotal(ls[..k]);
    SumOfMonotone(ls[..|ls| - 1], k);
    assert ls[..|ls| - 1][..k] == ls[..k];
  }

  lemma {:induction false} Wraps(n: nat)
    ensures n % TWO64 == n <==> n < TWO64
  {
  }

  /**
   When the layout is right: the files lie one behind the other iff the files before the last
   one have fewer than 2^64 bytes together, and the total is right iff all of them do.
   */
  lemma {:induction false} LayOutContiguous(ls: seq<nat>)
    ensures Contiguous(LayOut(ls)) <==> (ls == [] || SumOf(ls[..|ls| - 1]) < TWO64)
    ensures SumOf(ls) % TWO64 == TotalLength(LayOut(ls)) <==> SumOf(ls) < TWO64
  {
    LayOutTotal(ls);
    Wraps(SumOf(ls));
    hide SumOf, LayOut, TotalLength;
    var fs := LayOut(ls);
    forall k | 0 <= k < |ls|
      ensures fs[k].index == k
      ensures fs[k].begin == TotalLength(fs[..k]) <==> SumOf(ls[..k]) < TWO64
      ensures SumOf(ls[..k]) <= SumOf(ls[..|ls| - 1])
    {
      LayOutAt(ls, k);
      Wraps(SumOf(ls[..k]));
    }
    if ls != [] && Contiguous(fs) {
      var last := |ls| - 1;
      assert fs[last].begin == TotalLength(fs[..last]);
    }
  }

  // ---------- The info-hash ----------

  const INFO: bytes := Ascii("info")

  lemma {:induction false} LastPosition(es: seq<Entry>, key: bytes) returns (k: nat)
    requires LastOf(es, key).Some?
    ensures k < |es| && es[k].key == key && LastOf(es, key) == Some(es[k].value)
    decreases |es|
  {
    if LastOf(es[1..], key).Some? {
      var j := LastPosition(es[1..], key);
      k := j + 1;
    } else {
      k := 0;
    }
  }

  lemma {:induction false} EntryInside(es: seq<Entry>, k: nat)
    requires k < |es|
    ensures var at := |EncodeEntries(es[..k])| + |EncodeStr(es[k].key)|;
            At(EncodeEntries(es), at, Encode(es[k].value))
  {
    hide Encode, EncodeStr, EncodeEntries;
    B.Bencode.EntriesConcat(es[..k], es[k..]);
    assert es == es[..k] + es[k..];
    FirstEntry(es[k..]);
    var pre, rest := EncodeEntries(es[..k]), EncodeEntries(es[k..][1..]);
    var key, value := EncodeStr(es[k].key), Encode(es[k].value);
    assert EncodeEntries(es) == (pre + key) + value + rest;
  }

  /** A file the decoder reads: an encoded map of any order, with no empty map or key, and anything behind it. */
  ghost predicate ReadableFile(data: bytes, es: seq<Entry>, rest: bytes) {
    data == Encode(Dict(es)) + rest && InWidth(Dict(es)) && NoEmpty(Dict(es))
  }

  lemma {:induction false} InfoInside(es: seq<Entry>) returns (at: nat)
    requires LastOf(es, INFO).Some?
    ensures At(Encode(Dict(es)), at, Encode(LastOf(es, INFO).value))
    ensures at >= |EncodeStr(INFO)| && At(Encode(Dict(es)), at - |EncodeStr(INFO)|, EncodeStr(INFO))
  {
    hide Encode, EncodeStr, EncodeEntries, LastOf, Ascii, At;
    var k := LastPosition(es, INFO);
    var keyAt := |EncodeEntries(es[..k])|;
    EntryInside(es, k);
    EntryKeyInside(es, k);
    B.Bencode.DictEncoding(es);
    at := 1 + keyAt + |EncodeStr(INFO)|;
    AtInside(EncodeEntries(es), [CH_D], [CH_E], keyAt + |EncodeStr(INFO)|, Encode(es[k].value));
    AtInside(EncodeEntries(es), [CH_D], [CH_E], keyAt, EncodeStr(INFO));
  }

  /** Re-encoding what was read of a value gives the text it was read from iff the value is normal. */
  lemma {:induction false} NormalIff(v: Value)
    ensures Encode(Norm(v)) == Encode(v) <==> Normal(v)
  {
    hide Encode, Norm, Normal;
    NormIsNormal(v);
    if Encode(Norm(v)) == Encode(v) {
      EncodeInjective(Norm(v), v);
    }
    if Normal(v) {
      NormalStays(v);
    }
  }

  /**
   The `info` slice of a file: behind the last key `info` stands the text of its value `v`; the map
   read from the file holds the normal form of `v`, and its encoding is that text iff `v` is normal.
   */
  lemma {:induction false} InfoSlice(data: bytes, es: seq<Entry>, rest: bytes, junk: nat -> uint64) returns (at: nat)
    requires ReadableFile(data, es, rest) && LastOf(es, INFO).Some?
    ensures data != [] && Decode(data, junk).Got?
    ensures At(data, at, Encode(LastOf(es, INFO).value))
    ensures at >= |EncodeStr(INFO)| && At(data, at - |EncodeStr(INFO)|, EncodeStr(INFO))
    ensures var v := LastOf(es, INFO).value;
            && Lookup(Decode(data, junk).value, INFO) == Some(Norm(v))
            && (Encode(Norm(v)) == Encode(v) <==> Normal(v))
  {
    hide *;
    var v := LastOf(es, INFO).value;
    Read(data, es, rest, junk);
    NormalIff(v);
    at := InfoInside(es);
    AtFront(Encode(Dict(es)), rest, at, Encode(v));
    AtFront(Encode(Dict(es)), rest, at - |EncodeStr(INFO)|, EncodeStr(INFO));
  }

  lemma {:induction false} Read(data: bytes, es: seq<Entry>, rest: bytes, junk: nat -> uint64)
    requires ReadableFile(data, es, rest)
    ensures data == Encode(Dict(es)) + rest && data != [] && Decode(data, junk).Got?
    ensures Lookup(Decode(data, junk).value, INFO)
         == if LastOf(es, INFO).Some? then Some(Norm(LastOf(es, INFO).value)) else None
  {
    hide Decode, Lookup, LastOf, Norm, InWidth, NoEmpty, Ascii;
    DecodeLastWins(es, rest, junk);
  }

  lemma {:induction false} AtFront(s: bytes, after: bytes, pos: nat, x: bytes)
    requires At(s, pos, x)
    ensures At(s + after, pos, x)
  {
  }

  lemma {:induction false} EntryKeyInside(es: seq<Entry>, k: nat)
    requires k < |es|
    ensures At(EncodeEntries(es), |EncodeEntries(es[..k])|, EncodeStr(es[k].key))
  {
    hide Encode, EncodeStr, EncodeEntries;
    B.Bencode.EntriesConcat(es[..k], es[k..]);
    assert es == es[..k] + es[k..];
    FirstEntry(es[k..]);
    var pre, rest := EncodeEntries(es[..k]), EncodeEntries(es[k..][1..]);
    var key, value := EncodeStr(es[k].key), Encode(es[k].value);
    assert EncodeEntries(es) == pre + key + (value + rest);
  }

  lemma {:induction false} AtInside(s: bytes, before: bytes, after: bytes, pos: nat, x: bytes)
    requires At(s, pos, x)
    ensures At(before + s + after, |before| + pos, x)
  {
  }

  // ---------- The class ----------

  class TorrentMeta {
    var name: bytes
    var dirName: bytes
    var comment: bytes
    var createdBy: bytes
    var trackers: seq<Value>
    var mainTracker: bytes
    var pieceLength: nat
    var totalSize: nat
    var files: seq<FileInfo>
    var paths: seq<bytes>      // the path of each file
    var sha1sums: seq<Sha1Sum>
    var hashed: bytes          // what the info-hash is the SHA-1 digest of

    constructor ()
      ensures name == [] && dirName == [] && comment == [] && createdBy == [] && trackers == [] && mainTracker == []
      ensures pieceLength == 0 && totalSize == 0 && files == [] && paths == [] && sha1sums == [] && hashed == []
    {
      name, dirName, comment, createdBy, trackers, mainTracker := [], [], [], [], [], [];
      pieceLength, totalSize, files, paths, sha1sums, hashed := 0, 0, [], [], [], [];
    }

    /** A new object: nothing parsed yet. */
    predicate Blank()
      reads this
    {
      && files == [] && paths == [] && sha1sums == [] && totalSize == 0
      && dirName == [] && comment == [] && createdBy == [] && trackers == []
    }

    /** `parse(const char *, size_t)`. */
    method Parse(data: bytes, junk: nat -> uint64, past: nat -> byte) returns (halted: bool, ok: bool)
      requires data != [] && Blank()
      modifies this
      ensures halted <==> Decode(data, junk).Halt?
      ensures !halted ==> (ok <==> Accepts(Decode(data, junk).value))
      ensures !halted && ok ==> ParsedAs(Decode(data, junk).value, past)
    {
      hide BencodeSpec.Decode, ReadDictionary, Encode;
      var bencode := new B.Bencode();
      var h, dict := bencode.Decode(data, junk);
      if h {
        return true, false;
      }
      if dict == [] {
        return false, false;
      }
      DecodePosition(data, junk);
      ok := InternalParse(dict, bencode, past);
      return false, ok;
    }

    lemma {:induction false} DecodePosition(data: bytes, junk: nat -> uint64)
      requires data != [] && Decode(data, junk).Got? && Decode(data, junk).value != []
      ensures data[0] == CH_D && 0 < Decode(data, junk).pos <= |data| - 1
    {
      hide ReadDictionary;
    }

    /** The checks of `internalParse`, on the decoded map. */
    static predicate Accepts(dict: seq<Entry>) {
      var info := AsDict(Lookup(dict, INFO));
      && dict != []
      && Has(dict, "announce")
      && info != [] && Has(info, "pieces") && Has(info, "piece length")
      && (if Has(info, "files") then FileLengths(Lookup(info, Ascii("files")).value).Some?
          else AsUint(Lookup(info, Ascii("length"))) != 0)
    }

    static function Lengths(info: seq<Entry>): seq<nat>
    {
      if Has(info, "files") then
        var ls := FileLengths(Lookup(info, Ascii("files")).value);
        if ls.Some? then ls.value else []
      else [AsUint(Lookup(info, Ascii("length")))]
    }

    /** The paths of the files, relative to the directory of the torrent. */
    static function Paths(info: seq<Entry>): seq<bytes>
    {
      if Has(info, "files") then JoinPaths(PathLists(Lookup(info, Ascii("files")).value))
      else [AsStr(Lookup(info, Ascii("name")))]
    }

    /**
     What a successful parse leaves in the object: the hashed bytes are exactly the canonical
     encoding of the `info` map, one digest per 20 bytes of `pieces`, the files laid out and named,
     and the descriptive entries.
     */
    ghost predicate ParsedAs(dict: seq<Entry>, past: nat -> byte)
      reads this
    {
      var info := AsDict(Lookup(dict, INFO));
      var pieces := AsStr(Lookup(info, Ascii("pieces")));
      && hashed == Encode(Dict(info))
      && mainTracker == AsStr(Lookup(dict, Ascii("announce")))
      && name == AsStr(Lookup(info, Ascii("name")))
      && pieceLength == AsUint(Lookup(info, Ascii("piece length")))
      && sha1sums == Sums(pieces, past, (|pieces| + 19) / 20)
      && files == LayOut(Lengths(info))
      && totalSize == SumOf(Lengths(info)) % TWO64
      && paths == Paths(info)
      && dirName == (if Has(info, "files") then name else [])
      && comment == AsStr(Lookup(dict, Ascii("comment")))
      && createdBy == AsStr(Lookup(dict, Ascii("created by")))
      && trackers == AsList(Lookup(dict, Ascii("announce-list")))
    }

    method InternalParse(dict: seq<Entry>, bencode: B.Bencode, past: nat -> byte) returns (ok: bool)
      requires bencode.Valid() && bencode.pos <= bencode.buf.buffer.Length && bencode.buf.buffer.Length > 0
      requires dict != [] && Blank()
      modifies this, bencode`pos, bencode.buf, bencode.buf.buffer
      ensures ok <==> Accepts(dict)
      ensures ok ==> ParsedAs(dict, past)
    {
      hide Encode, Lookup, FileLengths, PathLists, JoinPaths, Sums, LayOut, SumOf, Ascii, Lengths, Paths;
      if !Has(dict, "announce") {
        return false;
      }
      ReadDescription(dict);
      var info := AsDict(Lookup(dict, INFO));
      if info == [] {
        return false;
      }
      var encoded := EncodeInfo(info, bencode);
      if !Has(info, "pieces") || !Has(info, "piece length") {
        return false;
      }
      hashed := encoded;
      name := AsStr(Lookup(info, Ascii("name")));
      pieceLength := AsUint(Lookup(info, Ascii("piece length")));
      ReadSums(AsStr(Lookup(info, Ascii("pieces"))), past);
      ok := ReadFiles(info);
    }

    /** The part of `internalParse` that lays out and names the files. */
    method ReadFiles(info: seq<Entry>) returns (ok: bool)
      requires files == [] && paths == [] && totalSize == 0 && dirName == []
      requires name == AsStr(Lookup(info, Ascii("name")))
      modifies this`files, this`paths, this`totalSize, this`dirName
      ensures ok <==> if Has(info, "files") then FileLengths(Lookup(info, Ascii("files")).value).Some?
                      else AsUint(Lookup(info, Ascii("length"))) != 0
      ensures ok ==> files == LayOut(Lengths(info)) && totalSize == SumOf(Lengths(info)) % TWO64
      ensures ok ==> paths == Paths(info) && dirName == if Has(info, "files") then name else []
    {
      hide Lookup, FileLengths, PathLists, JoinPaths, LayOut, SumOf, Ascii;
      if Has(info, "files") {
        var any := Lookup(info, Ascii("files")).value;
        var lengths := FileLengths(any);
        if lengths.None? {
          return false;
        }
        dirName := name;
        AsManyPaths(any);
        ParseFiles(lengths.value, PathLists(any));
      } else {
        var length := AsUint(Lookup(info, Ascii("length")));
        if length == 0 {
          return false;
        }
        SingleFile(length);
        totalSize := length;
        files := [FileInfo(0, 0, length)];
        paths := [name];
      }
      return true;
    }

    /** The map is encoded behind what was decoded; the bytes from there to the end of the buffer are its encoding. */
    method EncodeInfo(info: seq<Entry>, bencode: B.Bencode) returns (encoded: bytes)
      requires bencode.Valid() && bencode.pos <= bencode.buf.buffer.Length && bencode.buf.buffer.Length > 0
      modifies bencode`pos, bencode.buf, bencode.buf.buffer
      ensures encoded == Encode(Dict(info))
    {
      hide Encode;
      var pos := bencode.pos;
      ghost var decodedPart := bencode.Input()[..pos];
      bencode.Encode(info);
      encoded := bencode.Slice(pos);
      assert bencode.Written() == decodedPart + Encode(Dict(info));
    }

    /** The entries that only describe the torrent; one that is missing leaves its field empty. */
    method ReadDescription(dict: seq<Entry>)
      requires Has(dict, "announce") && Blank()
      modifies this`mainTracker, this`comment, this`createdBy, this`trackers
      ensures mainTracker == AsStr(Lookup(dict, Ascii("announce")))
      ensures comment == AsStr(Lookup(dict, Ascii("comment")))
      ensures createdBy == AsStr(Lookup(dict, Ascii("created by")))
      ensures trackers == AsList(Lookup(dict, Ascii("announce-list")))
    {
      hide Lookup, Ascii;
      mainTracker := AsStr(Lookup(dict, Ascii("announce")));
      if Has(dict, "comment") {
        comment := AsStr(Lookup(dict, Ascii("comment")));
      }
      if Has(dict, "created by") {
        createdBy := AsStr(Lookup(dict, Ascii("created by")));
      }
      if Has(dict, "announce-list") {
        trackers := AsList(Lookup(dict, Ascii("announce-list")));
      }
    }

    static lemma {:induction false} AsManyPaths(v: Value)
      ensures FileLengths(v).Some? ==> |PathLists(v)| == |FileLengths(v).value|
    {
    }

    lemma {:induction false} SingleFile(length: nat)
      ensures LayOut([length]) == [FileInfo(0, 0, length)] && SumOf([length]) == length
    {
      assert SumOf([length][..0]) == 0;
    }

    /** The loop that cuts `pieces` into digests, 20 bytes at a time. */
    method ReadSums(pieces: bytes, past: nat -> byte)
      requires sha1sums == []
      modifies this`sha1sums
      ensures sha1sums == Sums(pieces, past, (|pieces| + 19) / 20)
    {
      hide SumAt, Sums;
      NoSums(pieces, past);
      var i := 0;
      while i < |pieces|
        invariant i % 20 == 0 && i < |pieces| + 20
        invariant sha1sums == Sums(pieces, past, i / 20)
        decreases |pieces| - i
      {
        SumsStep(pieces, past, i / 20);
        sha1sums := sha1sums + [SumAt(pieces, past, i)];
        i := i + 20;
      }
      assert i / 20 == (|pieces| + 19) / 20;
    }

    static lemma {:induction false} NoSums(pieces: bytes, past: nat -> byte)
      ensures Sums(pieces, past, 0) == []
    {
    }

    /** The loop of `parseFile` over the components of a path. */
    method BuildPath(pathList: seq<bytes>) returns (path: bytes)
      ensures path == JoinPath(pathList)
    {
      path := [];
      for i := 0 to |pathList|
        invariant path == JoinPath(pathList[..i])
      {
        assert pathList[..i + 1][..i] == pathList[..i];
        if path != [] {
          path := path + [PATH_SEP];
        }
        path := path + pathList[i];
      }
      assert pathList[..|pathList|] == pathList;
    }

    /** The calls of `parseFile`, with their running `index` and `begin`. */
    method ParseFiles(lengths: seq<nat>, pathLists: seq<seq<bytes>>)
      requires files == [] && paths == [] && totalSize == 0 && |pathLists| == |lengths|
      modifies this`files, this`paths, this`totalSize
      ensures files == LayOut(lengths) && paths == JoinPaths(pathLists)
      ensures totalSize == SumOf(lengths) % TWO64
    {
      hide LayOut, JoinPath;
      var index, begin := 0, 0;
      NoFiles(lengths);
      while index < |lengths|
        invariant index <= |lengths|
        invariant files == LayOut(lengths[..index]) && paths == JoinPaths(pathLists[..index])
        invariant begin == totalSize == SumOf(lengths[..index]) % TWO64
      {
        LayOutStep(lengths, index);
        WrapAdd(SumOf(lengths[..index]), lengths[index]);
        var path := BuildPath(pathLists[index]);
        paths := paths + [path];
        files := files + [FileInfo(index, begin, lengths[index])];
        totalSize := (totalSize + lengths[index]) % TWO64;
        begin := (begin + lengths[index]) % TWO64;
        index := index + 1;
      }
      assert lengths[..index] == lengths && pathLists[..index] == pathLists;
    }

    static lemma {:induction false} NoFiles(ls: seq<nat>)
      ensures LayOut(ls[..0]) == [] && SumOf(ls[..0]) == 0
    {
    }

    static lemma {:induction false} WrapAdd(a: nat, b: nat)
      ensures (a % TWO64 + b) % TWO64 == (a + b) % TWO64
    {
    }
  }

  /**
   The bytes hashed for a file that is read and accepted: the canonical encoding of its `info` map.
   They are the text of `info` in the file itself iff that text is in normal form: maps sorted,
   no key twice, no negative integer.
   */
  method InfoHashOfFile(data: bytes, es: seq<Entry>, rest: bytes, junk: nat -> uint64, past: nat -> byte)
    returns (ok: bool, hashed: bytes, ghost at: nat)
    requires ReadableFile(data, es, rest)
    ensures data != [] && Decode(data, junk).Got? && (ok <==> TorrentMeta.Accepts(Decode(data, junk).value))
    ensures ok ==>
              && LastOf(es, INFO).Some?
              && at >= |EncodeStr(INFO)| && At(data, at - |EncodeStr(INFO)|, EncodeStr(INFO))
              && var v := LastOf(es, INFO).value;
                 At(data, at, Encode(v)) && hashed == Encode(Norm(v)) && (hashed == Encode(v) <==> Normal(v))
  {
    hide *;
    at := 0;
    Read(data, es, rest, junk);
    if LastOf(es, INFO).Some? {
      at := InfoSlice(data, es, rest, junk);
    }
    var meta := new TorrentMeta();
    NewIsBlank(meta);
    var halted, accepted := meta.Parse(data, junk, past);
    ok, hashed := accepted, meta.hashed;
    if ok {
      HashedIs(meta, Decode(data, junk).value, past);
    }
  }

  lemma {:induction false} NewIsBlank(meta: TorrentMeta)
    requires meta.dirName == [] && meta.comment == [] && meta.createdBy == [] && meta.trackers == []
    requires meta.files == [] && meta.paths == [] && meta.sha1sums == [] && meta.totalSize == 0
    ensures meta.Blank()
  {
  }

  // An accepted file has a map as its `info`, and the encoding of that map is hashed.
  lemma {:induction false} HashedIs(meta: TorrentMeta, dict: seq<Entry>, past: nat -> byte)
    requires TorrentMeta.Accepts(dict) && meta.ParsedAs(dict, past)
    ensures Lookup(dict, INFO).Some? && meta.hashed == Encode(Lookup(dict, INFO).value)
  {
    hide Encode, Lookup, Ascii, LayOut, Sums, SumOf, FileLengths, JoinPaths;
  }
}
