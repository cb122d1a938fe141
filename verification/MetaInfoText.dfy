/**
 From the text of a metainfo file to the parsed object: which entry of the file each field of the
 object comes from, for every encoded map, in whatever order its keys stand and however often.
 */
module MetaInfoText {
  import opened Bytes
  import opened Wrappers
  import opened BencodeSpec
  import opened BencodeRoundTrip
  import opened BencodeCanon
  import opened Layout
  import opened MetaInfo

  // ---------- Entries of the text ----------

  /** The string last written under `key`, or the empty one. */
  function TextStr(es: seq<Entry>, key: string): bytes {
    match LastOf(es, Ascii(key))
    case Some(Str(s)) => s
    case _ => []
  }

  /** The number last written under `key`, as an unsigned 64-bit one, or zero. */
  function TextUint(es: seq<Entry>, key: string): nat {
    match LastOf(es, Ascii(key))
    case Some(Int(n)) => n % 0x1_0000_0000_0000_0000
    case _ => 0
  }

  function TextDict(es: seq<Entry>, key: string): seq<Entry> {
    match LastOf(es, Ascii(key))
    case Some(Dict(entries)) => entries
    case _ => []
  }

  function TextList(es: seq<Entry>, key: string): seq<Value> {
    match LastOf(es, Ascii(key))
    case Some(List(items)) => items
    case _ => []
  }

  /** The map `dict` is what was read of the entries `es`. */
  ghost predicate ReadOf(dict: seq<Entry>, es: seq<Entry>) {
    forall x: bytes :: Lookup(dict, x) == if LastOf(es, x).Some? then Some(Norm(LastOf(es, x).value)) else None
  }

  /** What `Bencode::cast` takes from the map read is what the text says. */
  lemma {:induction false} CastIsText(dict: seq<Entry>, es: seq<Entry>, key: string)
    requires ReadOf(dict, es)
    ensures AsStr(Lookup(dict, Ascii(key))) == TextStr(es, key)
    ensures AsUint(Lookup(dict, Ascii(key))) == TextUint(es, key)
    ensures AsList(Lookup(dict, Ascii(key))) == NormAll(TextList(es, key))
    ensures AsDict(Lookup(dict, Ascii(key))) == Collapse([], TextDict(es, key))
    ensures Has(dict, key) <==> LastOf(es, Ascii(key)).Some?
  {
    hide Lookup, LastOf, Ascii;
  }

  lemma {:induction false} CollapseIsRead(es: seq<Entry>)
    ensures ReadOf(Collapse([], es), es)
  {
    hide Collapse, Lookup, LastOf, Norm;
    forall x: bytes
      ensures Lookup(Collapse([], es), x) == if LastOf(es, x).Some? then Some(Norm(LastOf(es, x).value)) else None
    {
      CollapseLastWins([], es, x);
      NothingFound(x);
    }
  }

  lemma {:induction false} NormAllAt(vs: seq<Value>, k: nat)
    requires k < |vs|
    ensures |NormAll(vs)| == |vs| && NormAll(vs)[k] == Norm(vs[k])
  {
    hide Norm;
    NormAllLength(vs);
    if k > 0 {
      NormAllAt(vs[1..], k - 1);
    }
  }

  lemma {:induction false} NormAllLength(vs: seq<Value>)
    ensures |NormAll(vs)| == |vs|
  {
    hide Norm;
    if vs != [] {
      NormAllLength(vs[1..]);
    }
  }

  // ---------- Files ----------

  /** The entries of one file description; anything but a map has none. */
  function Described(v: Value): seq<Entry> {
    match v
    case Dict(entries) => entries
    case _ => []
  }

  /** The components of its path; anything but a string counts as an empty one. */
  function Components(v: Value): seq<bytes> {
    var parts := TextList(Described(v), "path");
    seq(|parts|, i requires 0 <= i < |parts| => if parts[i].Str? then parts[i].s else [])
  }

  lemma {:induction false} FileIsText(v: Value)
    ensures LengthOf(Norm(v)) == TextUint(Described(v), "length")
    ensures PathOf(Norm(v)) == Components(v)
  {
    var es := Described(v);
    CollapseIsRead(es);
    CastIsText(Collapse([], es), es, "length");
    CastIsText(Collapse([], es), es, "path");
    NormOfDescribed(v);
    hide Collapse, Lookup, LastOf, Ascii, TextUint, ReadOf;
    var parts := TextList(es, "path");
    NormAllLength(parts);
    assert PathOf(Norm(v)) == Components(v) by {
      forall i | 0 <= i < |parts|
        ensures AsStr(Some(NormAll(parts)[i])) == if parts[i].Str? then parts[i].s else []
      {
        NormAllAt(parts, i);
      }
    }
  }

  lemma {:induction false} NormOfDescribed(v: Value)
    ensures AsDict(Some(Norm(v))) == Collapse([], Described(v))
  {
  }

  /** The files named by the list `items`, one behind the other, with sums that wrap at 2^64. */
  ghost predicate FilesOf(items: seq<Value>, files: seq<FileInfo>, paths: seq<bytes>) {
    && |files| == |paths| == |items|
    && (forall k :: 0 <= k < |items| ==>
          && files[k].index == k && files[k].length == TextUint(Described(items[k]), "length")
          && paths[k] == JoinPath(Components(items[k])))
    && (items != [] ==> files[0].begin == 0)
    && (forall k :: 0 < k < |items| ==> files[k].begin == (files[k - 1].begin + files[k - 1].length) % 0x1_0000_0000_0000_0000)
  }

  lemma {:induction false} BeginStep(ls: seq<nat>, k: nat)
    requires 0 < k < |ls|
    ensures LayOut(ls)[k].begin == (LayOut(ls)[k - 1].begin + LayOut(ls)[k - 1].length) % TWO64
  {
    assert ls[..k][..k - 1] == ls[..k - 1];
    TorrentMeta.WrapAdd(SumOf(ls[..k - 1]), ls[k - 1]);
    hide SumOf;
  }

  // One file of the layout.
  lemma {:induction false} ListedAt(items: seq<Value>, k: nat)
    requires k < |items|
    ensures var v := List(NormAll(items));
            && FileLengths(v).Some? && |FileLengths(v).value| == |PathLists(v)| == |items|
            && var f, path := LayOut(FileLengths(v).value)[k], JoinPaths(PathLists(v))[k];
               f.index == k && f.length == TextUint(Described(items[k]), "length") && path == JoinPath(Components(items[k]))
  {
    NormAllAt(items, k);
    FileIsText(items[k]);
    hide LengthOf, PathOf, TextUint, Components, Described, NormAll, Norm, SumOf, JoinPath;
  }

  lemma {:induction false} ListedCount(items: seq<Value>)
    ensures var v := List(NormAll(items));
            FileLengths(v).Some? && |FileLengths(v).value| == |PathLists(v)| == |items|
  {
    NormAllLength(items);
    hide LengthOf, PathOf, NormAll;
  }

  lemma {:induction false} FirstBegin(ls: seq<nat>)
    requires ls != []
    ensures LayOut(ls)[0].begin == 0
  {
    assert ls[..0] == [];
  }

  /** The list of files in the text is what the parser lays out and names. */
  lemma {:induction false} ListedFiles(items: seq<Value>)
    ensures FileLengths(List(NormAll(items))).Some?
    ensures FilesOf(items, LayOut(FileLengths(List(NormAll(items))).value), JoinPaths(PathLists(List(NormAll(items)))))
  {
    hide LengthOf, PathOf, TextUint, Components, Described, NormAll, Norm, SumOf, JoinPath, FileLengths, PathLists, LayOut, JoinPaths;
    ListedCount(items);
    var ls := FileLengths(List(NormAll(items))).value;
    var files, paths := LayOut(ls), JoinPaths(PathLists(List(NormAll(items))));
    forall k | 0 <= k < |items|
      ensures files[k].index == k && files[k].length == TextUint(Described(items[k]), "length")
      ensures paths[k] == JoinPath(Components(items[k]))
    {
      ListedAt(items, k);
    }
    forall k | 0 < k < |items|
      ensures files[k].begin == (files[k - 1].begin + files[k - 1].length) % 0x1_0000_0000_0000_0000
    {
      BeginStep(ls, k);
    }
    if items != [] {
      FirstBegin(ls);
    }
  }

  // ---------- Files under keys ----------

  /** The keys of a map, in the order of the map read. */
  function KeysOf(fs: seq<Entry>): seq<bytes> {
    var read := Collapse([], fs);
    seq(|read|, k requires 0 <= k < |read| => read[k].key)
  }

  /** The values last written under these keys. */
  function InKeyOrder(fs: seq<Entry>): seq<Value> {
    var keys := KeysOf(fs);
    seq(|keys|, k requires 0 <= k < |keys| => match LastOf(fs, keys[k]) case Some(v) => v case None => Str([]))
  }

  lemma {:induction false} LookupAt(es: seq<Entry>, k: nat)
    requires Sorted(es) && k < |es|
    ensures Lookup(es, es[k].key) == Some(es[k].value)
  {
    if k > 0 {
      LessIrreflexive(es[k].key);
      SortedTail(es);
      LookupAt(es[1..], k - 1);
      hide Less;
      assert Less(es[0].key, es[k].key);
    }
  }

  lemma {:induction false} LookupFinds(es: seq<Entry>, x: bytes)
    requires Lookup(es, x).Some?
    ensures exists k :: 0 <= k < |es| && es[k].key == x
  {
    if es[0].key != x {
      LookupFinds(es[1..], x);
      var k :| 0 <= k < |es| - 1 && es[1..][k].key == x;
      assert es[k + 1].key == x;
    }
  }

  /** The keys of a map are read in ascending order, each once, and they are those of the text. */
  lemma {:induction false} KeysAscend(fs: seq<Entry>)
    ensures forall i, j :: 0 <= i < j < |KeysOf(fs)| ==> Less(KeysOf(fs)[i], KeysOf(fs)[j])
    ensures forall x: bytes :: x in KeysOf(fs) <==> LastOf(fs, x).Some?
  {
    hide Collapse, Lookup, LastOf, Less, Norm;
    var read := Collapse([], fs);
    CollapseSorted([], fs);
    CollapseIsRead(fs);
    forall x: bytes
      ensures x in KeysOf(fs) <==> LastOf(fs, x).Some?
    {
      if Lookup(read, x).Some? {
        LookupFinds(read, x);
        var k :| 0 <= k < |read| && read[k].key == x;
        assert KeysOf(fs)[k] == x;
      }
      if x in KeysOf(fs) {
        var k :| 0 <= k < |KeysOf(fs)| && KeysOf(fs)[k] == x;
        LookupAt(read, k);
      }
    }
  }

  lemma {:induction false} KeyedAt(fs: seq<Entry>, k: nat)
    requires k < |Collapse([], fs)|
    ensures |InKeyOrder(fs)| == |Collapse([], fs)| && Collapse([], fs)[k].value == Norm(InKeyOrder(fs)[k])
  {
    hide Collapse, Lookup, LastOf, Less, Norm;
    CollapseSorted([], fs);
    CollapseIsRead(fs);
    LookupAt(Collapse([], fs), k);
  }

  lemma {:induction false} SameDescriptions(es: seq<Entry>, vs: seq<Value>)
    requires |vs| == |es| && forall k :: 0 <= k < |es| ==> vs[k] == es[k].value
    ensures FileLengths(Dict(es)) == FileLengths(List(vs)) && PathLists(Dict(es)) == PathLists(List(vs))
  {
    hide LengthOf, PathOf;
    assert FileLengths(Dict(es)).value == FileLengths(List(vs)).value;
  }

  lemma {:induction false} KeyedFiles(fs: seq<Entry>)
    ensures FileLengths(Norm(Dict(fs))) == FileLengths(List(NormAll(InKeyOrder(fs))))
    ensures PathLists(Norm(Dict(fs))) == PathLists(List(NormAll(InKeyOrder(fs))))
  {
    var read, vs := Collapse([], fs), InKeyOrder(fs);
    assert Norm(Dict(fs)) == Dict(read) && |vs| == |read| by { hide Collapse; }
    hide *;
    NormAllLength(vs);
    forall k | 0 <= k < |read|
      ensures NormAll(vs)[k] == read[k].value
    {
      KeyedAt(fs, k);
      NormAllAt(vs, k);
    }
    SameDescriptions(read, NormAll(vs));
  }

  // ---------- The whole object ----------

  /** One digest for every 20 bytes begun; those of 20 bytes are the string. */
  predicate DigestsOf(pieces: bytes, sums: seq<Sha1Sum>) {
    && |sums| == (|pieces| + 19) / 20
    && SumsBytes(sums[..|pieces| / 20]) == pieces[..20 * (|pieces| / 20)]
  }

  /** Where the last file ends, modulo 2^64. */
  function SizeUpTo(files: seq<FileInfo>): nat
    requires files != []
  {
    (files[|files| - 1].begin + files[|files| - 1].length) % 0x1_0000_0000_0000_0000
  }

  /** The files of the text `info`: one of length `length`, or those described under `files`. */
  ghost predicate FileFields(info: seq<Entry>, name: bytes, files: seq<FileInfo>, paths: seq<bytes>, totalSize: nat, dirName: bytes) {
    match LastOf(info, Ascii("files"))
    case None =>
      var length := TextUint(info, "length");
      length > 0 && totalSize == length && files == [FileInfo(0, 0, length)] && paths == [name] && dirName == []
    case Some(List(items)) =>
      && FilesOf(items, files, paths) && dirName == name
      && totalSize == if items == [] then 0 else SizeUpTo(files)
    case Some(Dict(fs)) =>
      && FilesOf(InKeyOrder(fs), files, paths) && dirName == name
      && totalSize == if InKeyOrder(fs) == [] then 0 else SizeUpTo(files)
    case _ => false
  }

  /** The fields of the object are those of the text `es`, for a single file and for both shapes of `files`. */
  ghost predicate FieldsOf(meta: TorrentMeta, es: seq<Entry>)
    reads meta
  {
    var info := TextDict(es, "info");
    && meta.mainTracker == TextStr(es, "announce")
    && meta.comment == TextStr(es, "comment") && meta.createdBy == TextStr(es, "created by")
    && meta.trackers == NormAll(TextList(es, "announce-list"))
    && meta.name == TextStr(info, "name") && meta.pieceLength == TextUint(info, "piece length")
    && DigestsOf(TextStr(info, "pieces"), meta.sha1sums)
    && FileFields(info, meta.name, meta.files, meta.paths, meta.totalSize, meta.dirName)
  }

  /** What a parse must find in the text: a tracker, and an `info` map with digests, a piece length, and files or a length. */
  ghost predicate Complete(es: seq<Entry>) {
    var info := TextDict(es, "info");
    && LastOf(es, Ascii("announce")).Some?
    && info != []
    && LastOf(info, Ascii("pieces")).Some? && LastOf(info, Ascii("piece length")).Some?
    && match LastOf(info, Ascii("files"))
       case Some(v) => v.List? || v.Dict?
       case None => TextUint(info, "length") > 0
  }

  lemma {:induction false} InfoIsRead(dict: seq<Entry>, es: seq<Entry>)
    requires ReadOf(dict, es)
    ensures var info, read := TextDict(es, "info"), AsDict(Lookup(dict, INFO));
            ReadOf(read, info) && (read == [] <==> info == [])
  {
    CastIsText(dict, es, "info");
    hide Lookup, LastOf, TextDict, ReadOf;
    var info := TextDict(es, "info");
    CollapseIsRead(info);
    assert info == [] ==> Collapse([], info) == [];
  }

  lemma {:induction false} SomethingRead(dict: seq<Entry>, es: seq<Entry>)
    requires ReadOf(dict, es) && LastOf(es, Ascii("announce")).Some?
    ensures dict != []
  {
    assert Lookup(dict, Ascii("announce")).Some?;
    hide LastOf, Ascii;
  }

  lemma {:induction false} FilesRead(dict: seq<Entry>, es: seq<Entry>)
    requires ReadOf(dict, es)
    ensures Lookup(dict, Ascii("files")) == match LastOf(es, Ascii("files")) case None => None case Some(v) => Some(Norm(v))
  {
    hide Lookup, LastOf, Ascii, Norm;
  }

  lemma {:induction false} ShapeKept(v: Value)
    ensures FileLengths(Norm(v)).Some? <==> v.List? || v.Dict?
  {
    hide LengthOf;
  }

  /** A file is accepted iff its text is complete. */
  lemma {:induction false} AcceptsIff(dict: seq<Entry>, es: seq<Entry>)
    requires ReadOf(dict, es)
    ensures TorrentMeta.Accepts(dict) <==> Complete(es)
  {
    var info, read := TextDict(es, "info"), AsDict(Lookup(dict, INFO));
    InfoIsRead(dict, es);
    CastIsText(dict, es, "announce");
    CastIsText(read, info, "pieces");
    CastIsText(read, info, "piece length");
    CastIsText(read, info, "files");
    CastIsText(read, info, "length");
    FilesRead(read, info);
    var files := LastOf(info, Ascii("files"));
    if files.Some? {
      ShapeKept(files.value);
    }
    if LastOf(es, Ascii("announce")).Some? {
      SomethingRead(dict, es);
    }
    hide Lookup, LastOf, Ascii, TextDict, TextUint, TextStr, TextList, ReadOf, FileLengths, Norm, Collapse;
  }

  lemma {:induction false} TotalIsSize(ls: seq<nat>)
    ensures SumOf(ls) % TWO64 == if ls == [] then 0 else SizeUpTo(LayOut(ls))
  {
    if ls != [] {
      TorrentMeta.WrapAdd(SumOf(ls[..|ls| - 1]), ls[|ls| - 1]);
    }
  }

  lemma {:induction false} OneFile(length: nat)
    requires length < TWO64
    ensures LayOut([length]) == [FileInfo(0, 0, length)] && SumOf([length]) % TWO64 == length
  {
    assert [length][..0] == [];
  }

  lemma {:induction false} DigestsBack(pieces: bytes, past: nat -> byte)
    ensures DigestsOf(pieces, Sums(pieces, past, (|pieces| + 19) / 20))
  {
    var n := |pieces| / 20;
    SumsRoundTrip(pieces, past, n);
    assert Sums(pieces, past, (|pieces| + 19) / 20)[..n] == Sums(pieces, past, n);
    hide Sums, SumsBytes;
  }

  lemma {:induction false} FilesAreText(read: seq<Entry>, info: seq<Entry>)
    requires ReadOf(read, info)
    requires if Has(read, "files") then FileLengths(Lookup(read, Ascii("files")).value).Some?
             else AsUint(Lookup(read, Ascii("length"))) != 0
    ensures var ls := TorrentMeta.Lengths(read);
            FileFields(info, AsStr(Lookup(read, Ascii("name"))), LayOut(ls), TorrentMeta.Paths(read), SumOf(ls) % TWO64,
                       if Has(read, "files") then AsStr(Lookup(read, Ascii("name"))) else [])
  {
    CastIsText(read, info, "files");
    CastIsText(read, info, "length");
    FilesRead(read, info);
    TotalIsSize(TorrentMeta.Lengths(read));
    hide Lookup, LastOf, Ascii, TextUint, TextList, TextDict, TextStr, ReadOf, FileLengths, Collapse, LayOut, SumOf, FilesOf;
    hide PathLists, JoinPaths, SizeUpTo, NormAll, InKeyOrder;
    var files := LastOf(info, Ascii("files"));
    if files.Some? {
      ShapeKept(files.value);
    }
    match files
    case None => OneFile(TextUint(info, "length"));
    case Some(List(items)) =>
      ListedFiles(items);
      ListedCount(items);
    case Some(Dict(fs)) =>
      KeyedFiles(fs);
      ListedFiles(InKeyOrder(fs));
      ListedCount(InKeyOrder(fs));
    case _ =>
  }

  /** Every field of an accepted file comes from the entry of its text that carries the field's name. */
  lemma {:induction false} FieldsAreText(meta: TorrentMeta, dict: seq<Entry>, es: seq<Entry>, past: nat -> byte)
    requires ReadOf(dict, es) && TorrentMeta.Accepts(dict) && meta.ParsedAs(dict, past)
    ensures FieldsOf(meta, es)
  {
    var info, read := TextDict(es, "info"), AsDict(Lookup(dict, INFO));
    hide TorrentMeta.Lengths, TorrentMeta.Paths, FileFields, LayOut, SumOf, FileLengths, Sums, DigestsOf;
    hide Lookup, LastOf, Ascii, TextDict, TextUint, TextStr, TextList, ReadOf, Collapse, NormAll;
    InfoIsRead(dict, es);
    CastIsText(dict, es, "announce");
    CastIsText(dict, es, "comment");
    CastIsText(dict, es, "created by");
    CastIsText(dict, es, "announce-list");
    CastIsText(read, info, "name");
    CastIsText(read, info, "pieces");
    CastIsText(read, info, "piece length");
    FilesAreText(read, info);
    DigestsBack(TextStr(info, "pieces"), past);
  }

  /**
   Parsing any encoded map, whatever stands behind it: it is accepted iff its text is complete, and
   then every field of the object is what the text says.
   */
  method ParseText(data: bytes, es: seq<Entry>, rest: bytes, junk: nat -> uint64, past: nat -> byte)
    returns (ok: bool, meta: TorrentMeta)
    requires ReadableFile(data, es, rest)
    ensures ok <==> Complete(es)
    ensures ok ==> FieldsOf(meta, es)
  {
    hide *;
    meta := new TorrentMeta();
    NewIsBlank(meta);
    WholeIsRead(data, es, rest, junk);
    var halted;
    halted, ok := meta.Parse(data, junk, past);
    AcceptsIff(Decode(data, junk).value, es);
    if ok {
      FieldsAreText(meta, Decode(data, junk).value, es, past);
    }
  }

  /** Components are joined by a slash; an empty path in front of it brings none. */
  lemma {:induction false} PathText(parts: seq<bytes>, part: bytes)
    ensures JoinPath([]) == []
    ensures JoinPath(parts + [part]) == if JoinPath(parts) == [] then part else JoinPath(parts) + Ascii("/") + part
  {
    assert (parts + [part])[..|parts|] == parts;
    assert Ascii("/") == [PATH_SEP];
  }

  lemma {:induction false} WholeIsRead(data: bytes, es: seq<Entry>, rest: bytes, junk: nat -> uint64)
    requires ReadableFile(data, es, rest)
    ensures data != [] && Decode(data, junk).Got? && ReadOf(Decode(data, junk).value, es)
  {
    DecodeLastWins(es, rest, junk);
    hide Decode, Lookup, LastOf, Norm;
  }
}
