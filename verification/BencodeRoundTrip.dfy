/**
 What the decoder makes of encoded values: an exact round trip, exactly for the trees without an
 empty dictionary and without an empty key.
 */
module BencodeRoundTrip {
  import opened Bytes
  import opened Wrappers
  import opened BencodeSpec

  // ---------- What decoding turns a value into ----------

  /**
   The value as it comes back: integers modulo 2^64 (every integer is read as unsigned), and the
   entries of a dictionary sorted by key, the last one winning.
   */
  function Norm(v: Value): Value {
    match v
    case Int(n) => Int(n % TWO64)
    case Str(s) => Str(s)
    case List(items) => List(NormAll(items))
    case Dict(entries) => Dict(Collapse([], entries))
  }

  function NormAll(vs: seq<Value>): seq<Value> {
    if vs == [] then [] else [Norm(vs[0])] + NormAll(vs[1..])
  }

  function Collapse(acc: seq<Entry>, es: seq<Entry>): (r: seq<Entry>)
    ensures es != [] ==> r != []
    ensures acc != [] ==> r != []
    decreases es
  {
    if es == [] then acc else Collapse(Insert(acc, es[0].key, Norm(es[0].value)), es[1..])
  }

  /** Integers and string lengths that fit the source's types `int64_t`, `uint64_t` and `size_t`. */
  predicate InWidth(v: Value) {
    match v
    case Int(n) => -0x8000_0000_0000_0000 <= n < TWO64
    case Str(s) => |s| < TWO64
    case List(items) => forall i :: 0 <= i < |items| ==> InWidth(items[i])
    case Dict(entries) => forall i :: 0 <= i < |entries| ==> |entries[i].key| < TWO64 && InWidth(entries[i].value)
  }

  /** No empty dictionary and no empty key anywhere in the tree. */
  predicate NoEmpty(v: Value) {
    match v
    case Int(_) => true
    case Str(_) => true
    case List(items) => forall i :: 0 <= i < |items| ==> NoEmpty(items[i])
    case Dict(entries) =>
      entries != [] && forall i :: 0 <= i < |entries| ==> entries[i].key != [] && NoEmpty(entries[i].value)
  }

  // ---------- Encoded text inside a buffer ----------

  /** The bytes `x` stand at position `pos` of `s`. */
  predicate At(s: bytes, pos: nat, x: bytes) {
    pos + |x| <= |s| && s[pos..pos + |x|] == x
  }

  lemma {:induction false} AtSplit(s: bytes, pos: nat, a: bytes, b: bytes)
    requires At(s, pos, a + b)
    ensures At(s, pos, a) && At(s, pos + |a|, b)
  {
    assert s[pos..pos + |a|] == (a + b)[..|a|];
    assert s[pos + |a|..pos + |a| + |b|] == (a + b)[|a|..];
  }

  lemma {:induction false} AtByte(s: bytes, pos: nat, b: byte, x: bytes)
    requires At(s, pos, [b] + x)
    ensures pos < |s| && s[pos] == b && At(s, pos + 1, x)
  {
    assert s[pos] == s[pos..pos + |[b] + x|][0];
    AtSplit(s, pos, [b], x);
  }

  lemma {:induction false} FindEnds(s: bytes, pos: nat, x: bytes, b: byte)
    requires At(s, pos, x + [b])
    requires forall k :: 0 <= k < |x| ==> x[k] != b
    ensures Find(s, pos, b) == pos + |x|
    decreases |x|
  {
    if x == [] {
      assert x + [b] == [b] + [];
      AtByte(s, pos, b, []);
    } else {
      assert x + [b] == [x[0]] + (x[1..] + [b]);
      AtByte(s, pos, x[0], x[1..] + [b]);
      FindEnds(s, pos + 1, x[1..], b);
    }
  }

  // ---------- Numbers ----------

  lemma {:induction false} DigitsSplit(a: bytes, b: bytes, acc: nat)
    requires forall k :: 0 <= k < |a| ==> IsDigit(a[k])
    ensures DigitsFrom(a + b, acc) == DigitsFrom(b, DigitsFrom(a, acc))
    decreases |a|
  {
    if a == [] {
      assert a + b == b;
    } else {
      assert (a + b)[1..] == a[1..] + b;
      DigitsSplit(a[1..], b, acc * 10 + (a[0] - CH_0));
    }
  }

  lemma {:induction false} DigitsOfDec(n: nat)
    ensures DigitsFrom(Dec(n), 0) == n
  {
    if n < 10 {
      assert Dec(n)[1..] == [];
    } else {
      var last := [CH_0 + n % 10];
      DigitsOfDec(n / 10);
      DigitsSplit(Dec(n / 10), last, 0);
      assert last[1..] == [];
    }
  }

  /** Parsing undoes printing, modulo 2^64. */
  lemma {:induction false} ParseOfDec(n: int)
    requires -0x8000_0000_0000_0000 <= n < TWO64
    ensures ParseUint(DecInt(n)) == Some(n % TWO64)
  {
    if n < 0 {
      ParseOfNegative(n);
    } else {
      ParseOfNatural(n);
    }
  }

  lemma {:induction false} ParseOfNegative(n: int)
    requires -0x8000_0000_0000_0000 <= n < 0
    ensures ParseUint(DecInt(n)) == Some(n % TWO64)
  {
    DigitsOfDec(-n);
    assert ([MINUS] + Dec(-n))[1..] == Dec(-n);
    hide Dec, DigitsFrom;
  }

  lemma {:induction false} ParseOfNatural(n: nat)
    requires n < TWO64
    ensures ParseUint(DecInt(n)) == Some(n % TWO64)
  {
    DigitsOfDec(n);
    hide Dec, DigitsFrom;
    assert IsDigit(Dec(n)[0]);
  }

  lemma {:induction false} ReadUintEncoded(s: bytes, pos: nat, n: int, delim: byte, junk: nat -> uint64)
    requires -0x8000_0000_0000_0000 <= n < TWO64 && (delim == COLON || delim == CH_E)
    requires At(s, pos, DecInt(n) + [delim])
    ensures ReadUint(s, pos, delim, junk) == Got(n % TWO64, pos + |DecInt(n)| + 1)
  {
    var x := DecInt(n);
    FindEnds(s, pos, x, delim);
    AtSplit(s, pos, x, [delim]);
    ParseOfDec(n);
  }

  lemma {:induction false} ReadStringEncoded(s: bytes, pos: nat, x: bytes, junk: nat -> uint64)
    requires |x| < TWO64 && At(s, pos, EncodeStr(x))
    requires x == [] ==> pos + |EncodeStr(x)| < |s|
    ensures ReadString(s, pos, junk) == Got(x, pos + |EncodeStr(x)|)
  {
    AtSplit(s, pos, Dec(|x|) + [COLON], x);
    ReadUintEncoded(s, pos, |x|, COLON, junk);
  }

  // ---------- The round trip ----------

  /**
   Reading an encoded value gives the normalised value and leaves the cursor exactly behind it,
   wherever it stands and whatever follows; only behind an empty string something must follow.
   */
  lemma {:induction false} ReadEncoded(s: bytes, pos: nat, v: Value, junk: nat -> uint64)
    requires InWidth(v) && NoEmpty(v) && At(s, pos, Encode(v)) && Followed(v, s, pos)
    ensures pos < |s| && ReadValue(s, pos, junk) == Got(Norm(v), pos + |Encode(v)|)
    decreases v
  {
    hide At, Dec, DecInt, EncodeStr, EncodeAll, EncodeEntries, ReadVector, ReadDictionary, ReadString, ReadUint, Collapse;
    match v
    case Int(n) =>
      assert Encode(v) == [CH_I] + (DecInt(n) + [CH_E]);
      AtByte(s, pos, CH_I, DecInt(n) + [CH_E]);
      ReadUintEncoded(s, pos + 1, n, CH_E, junk);
    case Str(x) =>
      EncodeStart(v);
      AtStart(s, pos, EncodeStr(x));
      ReadStringEncoded(s, pos, x, junk);
    case List(items) =>
      assert Encode(v) == [CH_L] + (EncodeAll(items) + [CH_E]);
      AtByte(s, pos, CH_L, EncodeAll(items) + [CH_E]);
      ReadEncodedAll(s, pos + 1, items, junk);
    case Dict(entries) =>
      assert Encode(v) == [CH_D] + (EncodeEntries(entries) + [CH_E]);
      AtByte(s, pos, CH_D, EncodeEntries(entries) + [CH_E]);
      ReadEncodedEntries(s, pos + 1, entries, [], junk);
  }

  /** An empty string is not the end of the buffer. Inside a list or dictionary it never is. */
  predicate Followed(v: Value, s: bytes, pos: nat) {
    v == Str([]) ==> pos + |Encode(v)| < |s|
  }

  // No encoded value starts with the end mark.
  lemma {:induction false} EncodeStart(v: Value)
    ensures Encode(v)[0] != CH_E
    ensures v.Str? <==> IsDigit(Encode(v)[0])
    ensures v.Int? <==> Encode(v)[0] == CH_I
    ensures v.List? <==> Encode(v)[0] == CH_L
    ensures v.Dict? <==> Encode(v)[0] == CH_D
  {
    match v
    case Str(x) =>
      assert Encode(v)[0] == Dec(|x|)[0];
      assert IsDigit(Dec(|x|)[0]);
    case _ =>
  }

  lemma {:induction false} AllUnfold(vs: seq<Value>)
    requires vs != []
    ensures EncodeAll(vs) + [CH_E] == Encode(vs[0]) + (EncodeAll(vs[1..]) + [CH_E])
    ensures |EncodeAll(vs)| == |Encode(vs[0])| + |EncodeAll(vs[1..])|
  {
    hide Encode;
  }

  lemma {:induction false} VectorStep(s: bytes, pos: nat, v: Value, q: nat, junk: nat -> uint64)
    requires pos < |s| && s[pos] != CH_E && ReadValue(s, pos, junk) == Got(v, q)
    ensures ReadVector(s, pos, junk)
         == var rest := ReadVector(s, q, junk);
            if rest.Halt? then Halt else Got([v] + rest.value, rest.pos)
  {
    hide ReadValue;
  }

  lemma {:induction false} VectorEnd(s: bytes, pos: nat, junk: nat -> uint64)
    requires pos < |s| && s[pos] == CH_E
    ensures ReadVector(s, pos, junk) == Got([], pos + 1)
  {
  }

  // The first byte of encoded text, seen from its place in the buffer.
  lemma {:induction false} AtStart(s: bytes, pos: nat, x: bytes)
    requires x != [] && At(s, pos, x)
    ensures pos < |s| && s[pos] == x[0]
  {
    assert s[pos] == s[pos..pos + |x|][0];
  }

  lemma {:induction false} ReadEncodedAll(s: bytes, pos: nat, vs: seq<Value>, junk: nat -> uint64)
    requires forall i :: 0 <= i < |vs| ==> InWidth(vs[i]) && NoEmpty(vs[i])
    requires At(s, pos, EncodeAll(vs) + [CH_E])
    ensures ReadVector(s, pos, junk) == Got(NormAll(vs), pos + |EncodeAll(vs)| + 1)
    decreases vs
  {
    hide At, Encode, ReadVector, ReadValue, InWidth, NoEmpty, Norm;
    if vs == [] {
      assert EncodeAll(vs) + [CH_E] == [CH_E];
      AtStart(s, pos, [CH_E]);
      VectorEnd(s, pos, junk);
    } else {
      AllUnfold(vs);
      AtSplit(s, pos, Encode(vs[0]), EncodeAll(vs[1..]) + [CH_E]);
      AtStart(s, pos, Encode(vs[0]));
      AtStart(s, pos + |Encode(vs[0])|, EncodeAll(vs[1..]) + [CH_E]);
      EncodeStart(vs[0]);
      ReadEncoded(s, pos, vs[0], junk);
      VectorStep(s, pos, Norm(vs[0]), pos + |Encode(vs[0])|, junk);
      ReadEncodedAll(s, pos + |Encode(vs[0])|, vs[1..], junk);
    }
  }

  lemma {:induction false} EntriesUnfold(es: seq<Entry>)
    requires es != []
    ensures EncodeEntries(es) + [CH_E]
         == EncodeStr(es[0].key) + (Encode(es[0].value) + (EncodeEntries(es[1..]) + [CH_E]))
    ensures |EncodeEntries(es)| == |EncodeStr(es[0].key)| + |Encode(es[0].value)| + |EncodeEntries(es[1..])|
  {
    FirstEntry(es);
    hide *;
    Regroup(EncodeStr(es[0].key), Encode(es[0].value), EncodeEntries(es[1..]), [CH_E]);
  }

  lemma {:induction false} FirstEntry(es: seq<Entry>)
    requires es != []
    ensures EncodeEntries(es) == EncodeStr(es[0].key) + Encode(es[0].value) + EncodeEntries(es[1..])
  {
    hide Encode, EncodeStr;
  }

  lemma {:induction false} Regroup(a: bytes, b: bytes, c: bytes, d: bytes)
    ensures a + b + c + d == a + (b + (c + d))
  {
  }

  lemma {:induction false} DictionaryStep(s: bytes, pos: nat, acc: seq<Entry>, key: bytes, p: nat, v: Value, q: nat, junk: nat -> uint64)
    requires ReadString(s, pos, junk) == Got(key, p) && key != []
    requires p < |s| && ReadValue(s, p, junk) == Got(v, q) && q < |s|
    ensures ReadDictionary(s, pos, acc, junk)
         == if s[q] == CH_E then Got(Insert(acc, key, v), q + 1) else ReadDictionary(s, q, Insert(acc, key, v), junk)
  {
    hide ReadString, ReadValue, Insert;
  }

  lemma {:induction false} KeyStart(x: bytes)
    ensures |EncodeStr(x)| >= 2 && EncodeStr(x)[0] != CH_E
  {
    assert EncodeStr(x)[0] == Dec(|x|)[0];
    assert IsDigit(Dec(|x|)[0]);
  }

  // What follows an entry: the end mark or the next key.
  lemma {:induction false} TailStart(es: seq<Entry>)
    ensures var tail := EncodeEntries(es) + [CH_E];
            tail[0] == CH_E <==> es == []
  {
    hide Encode, EncodeStr;
    if es != [] {
      KeyStart(es[0].key);
    }
  }

  // The pieces of an encoded entry, and what the decoder makes of them.
  lemma {:induction false} EntryAt(s: bytes, pos: nat, es: seq<Entry>)
    requires es != [] && At(s, pos, EncodeEntries(es) + [CH_E])
    ensures At(s, pos, EncodeStr(es[0].key))
    ensures At(s, pos + |EncodeStr(es[0].key)|, Encode(es[0].value))
    ensures var q := pos + |EncodeStr(es[0].key)| + |Encode(es[0].value)|;
            && At(s, q, EncodeEntries(es[1..]) + [CH_E])
            && q < |s| && (s[q] == CH_E <==> es[1..] == [])
  {
    hide At, Encode, EncodeStr, EncodeEntries;
    var key, value, tail := EncodeStr(es[0].key), Encode(es[0].value), EncodeEntries(es[1..]) + [CH_E];
    EntriesUnfold(es);
    AtSplit(s, pos, key, value + tail);
    AtSplit(s, pos + |key|, value, tail);
    TailStart(es[1..]);
    AtStart(s, pos + |key| + |value|, tail);
  }

  lemma {:induction false} ReadEncodedEntries(s: bytes, pos: nat, es: seq<Entry>, acc: seq<Entry>, junk: nat -> uint64)
    requires es != []
    requires forall i :: 0 <= i < |es| ==> es[i].key != [] && |es[i].key| < TWO64 && InWidth(es[i].value) && NoEmpty(es[i].value)
    requires At(s, pos, EncodeEntries(es) + [CH_E])
    ensures ReadDictionary(s, pos, acc, junk) == Got(Collapse(acc, es), pos + |EncodeEntries(es)| + 1)
    decreases es
  {
    hide At, Encode, EncodeStr, EncodeEntries, ReadDictionary, ReadValue, ReadString, InWidth, NoEmpty, Norm, Insert;
    EntryAt(s, pos, es);
    EntriesUnfold(es);
    ReadStringEncoded(s, pos, es[0].key, junk);
    var p := pos + |EncodeStr(es[0].key)|;
    var q := p + |Encode(es[0].value)|;
    ReadEncoded(s, p, es[0].value, junk);
    DictionaryStep(s, pos, acc, es[0].key, p, Norm(es[0].value), q, junk);
    if es[1..] == [] {
      NoEntries();
    } else {
      ReadEncodedEntries(s, q, es[1..], Insert(acc, es[0].key, Norm(es[0].value)), junk);
    }
  }

  lemma {:induction false} NoEntries()
    ensures EncodeEntries([]) == []
  {
  }

  /** A whole file: decoding an encoded dictionary, with anything behind it. */
  lemma {:induction false} DecodeEncoded(es: seq<Entry>, rest: bytes, junk: nat -> uint64)
    requires InWidth(Dict(es)) && NoEmpty(Dict(es))
    ensures Decode(Encode(Dict(es)) + rest, junk) == Got(Collapse([], es), |Encode(Dict(es))| - 1)
  {
    var data := Encode(Dict(es)) + rest;
    var body := EncodeEntries(es) + [CH_E];
    assert Encode(Dict(es)) == [CH_D] + body;
    assert data[1..] == body + rest;
    assert At(data[1..], 0, body);
    ReadEncodedEntries(data[1..], 0, es, [], junk);
  }

  // ---------- Exactly these values round trip ----------

  /** Reading `v` back works at every position of every buffer, except for an empty string at the very end. */
  ghost predicate RoundTrips(v: Value) {
    forall s: bytes, pos: nat, junk: nat -> uint64 :: ReadsBack(v, s, pos, junk)
  }

  predicate ReadsBack(v: Value, s: bytes, pos: nat, junk: nat -> uint64) {
    At(s, pos, Encode(v)) && Followed(v, s, pos) ==> pos < |s| && ReadValue(s, pos, junk) == Got(Norm(v), pos + |Encode(v)|)
  }

  /** `v` and every part of it can be read back. */
  ghost predicate AllRoundTrip(v: Value) {
    && RoundTrips(v)
    && match v
       case Int(_) => true
       case Str(_) => true
       case List(items) => forall i :: 0 <= i < |items| ==> AllRoundTrip(items[i])
       case Dict(entries) => forall i :: 0 <= i < |entries| ==> AllRoundTrip(entries[i].value)
  }

  lemma {:induction false} NoEmptyRoundTrip(v: Value)
    requires InWidth(v) && NoEmpty(v)
    ensures RoundTrips(v)
  {
    hide InWidth, NoEmpty, Norm, Encode, ReadValue, At;
    forall s: bytes, pos: nat, junk: nat -> uint64
      ensures ReadsBack(v, s, pos, junk)
    {
      if At(s, pos, Encode(v)) && Followed(v, s, pos) {
        ReadEncoded(s, pos, v, junk);
      }
    }
  }

  lemma {:induction false} NoEmptyRoundTrips(v: Value)
    requires InWidth(v) && NoEmpty(v)
    ensures AllRoundTrip(v)
  {
    hide RoundTrips;
    NoEmptyRoundTrip(v);
    match v
    case Int(_) =>
    case Str(_) =>
    case List(items) =>
      forall i | 0 <= i < |items| ensures AllRoundTrip(items[i]) { NoEmptyRoundTrips(items[i]); }
    case Dict(entries) =>
      forall i | 0 <= i < |entries| ensures AllRoundTrip(entries[i].value) { NoEmptyRoundTrips(entries[i].value); }
  }

  function NoJunk(pos: nat): uint64 { 0 }

  lemma {:induction false} AtWhole(x: bytes)
    ensures At(x, 0, x)
  {
  }

  /** An empty dictionary does not round trip: the search for its first key runs off the end. */
  lemma {:induction false} EmptyDictionaryHalts(junk: nat -> uint64)
    ensures Encode(Dict([])) == [CH_D, CH_E]
    ensures ReadValue([CH_D, CH_E], 0, junk) == Halt
  {
    assert Encode(Dict([])) == [CH_D, CH_E];
    assert Find([CH_D, CH_E], 1, COLON) == Find([CH_D, CH_E], 2, COLON) == 2;
  }

  /** Nor does an empty string with nothing behind it, wherever in a buffer it stands. */
  lemma {:induction false} EmptyStringAtEndHalts(s: bytes, pos: nat, junk: nat -> uint64)
    requires At(s, pos, Encode(Str([]))) && pos + |Encode(Str([]))| == |s|
    ensures pos < |s| && ReadValue(s, pos, junk) == Halt
  {
    assert Encode(Str([])) == DecInt(0) + [COLON];
    EncodeStart(Str([]));
    AtStart(s, pos, Encode(Str([])));
    ReadUintEncoded(s, pos, 0, COLON, junk);
  }

  /** The exact condition for reading back at one place: any value but an empty string, or anything behind it. */
  lemma {:induction false} ReadEncodedIff(s: bytes, pos: nat, v: Value, junk: nat -> uint64)
    requires InWidth(v) && NoEmpty(v) && At(s, pos, Encode(v))
    ensures pos < |s|
    ensures ReadValue(s, pos, junk) == Got(Norm(v), pos + |Encode(v)|) <==> Followed(v, s, pos)
  {
    hide ReadValue, InWidth, NoEmpty, Norm, Encode;
    if Followed(v, s, pos) {
      ReadEncoded(s, pos, v, junk);
    } else {
      EmptyStringAtEndHalts(s, pos, junk);
    }
  }

  lemma {:induction false} EmptyDictionaryBreaks()
    ensures !RoundTrips(Dict([]))
  {
    EmptyDictionaryHalts(NoJunk);
    AtWhole(Encode(Dict([])));
    assert !ReadsBack(Dict([]), Encode(Dict([])), 0, NoJunk);
  }

  lemma {:induction false} DictionaryStops(s: bytes, pos: nat, acc: seq<Entry>, p: nat, junk: nat -> uint64)
    requires ReadString(s, pos, junk) == Got([], p)
    ensures ReadDictionary(s, pos, acc, junk) == Got([], p)
  {
    hide ReadString, ReadValue, Insert;
  }

  // A dictionary with an empty key reads back as an empty one: what came before the key is dropped.
  lemma {:induction false} EmptyKeyDrops(s: bytes, pos: nat, es: seq<Entry>, acc: seq<Entry>, j: nat, junk: nat -> uint64)
    requires j < |es| && es[j].key == []
    requires forall i :: 0 <= i < j ==> es[i].key != []
    requires forall i :: 0 <= i < |es| ==> |es[i].key| < TWO64 && InWidth(es[i].value) && NoEmpty(es[i].value)
    requires At(s, pos, EncodeEntries(es) + [CH_E])
    ensures ReadDictionary(s, pos, acc, junk).Got? && ReadDictionary(s, pos, acc, junk).value == []
    decreases es
  {
    hide At, Encode, EncodeStr, EncodeEntries, ReadDictionary, ReadValue, ReadString, InWidth, NoEmpty, Norm, Insert;
    EntryAt(s, pos, es);
    var p := pos + |EncodeStr(es[0].key)|;
    AtStart(s, p, Encode(es[0].value));
    ReadStringEncoded(s, pos, es[0].key, junk);
    if j == 0 {
      DictionaryStops(s, pos, acc, p, junk);
    } else {
      var q := p + |Encode(es[0].value)|;
      ReadEncoded(s, p, es[0].value, junk);
      DictionaryStep(s, pos, acc, es[0].key, p, Norm(es[0].value), q, junk);
      EmptyKeyDrops(s, q, es[1..], Insert(acc, es[0].key, Norm(es[0].value)), j - 1, junk);
    }
  }

  lemma {:induction false} FirstEmptyKey(es: seq<Entry>) returns (j: nat)
    requires exists i :: 0 <= i < |es| && es[i].key == []
    ensures j < |es| && es[j].key == [] && forall i :: 0 <= i < j ==> es[i].key != []
  {
    j := 0;
    while es[j].key != []
      invariant j < |es| && forall i :: 0 <= i < j ==> es[i].key != []
      invariant exists i :: j <= i < |es| && es[i].key == []
      decreases |es| - j
    {
      j := j + 1;
    }
  }

  lemma {:induction false} EmptyKeyBreaks(es: seq<Entry>)
    requires InWidth(Dict(es))
    requires forall i :: 0 <= i < |es| ==> NoEmpty(es[i].value)
    requires exists i :: 0 <= i < |es| && es[i].key == []
    ensures !RoundTrips(Dict(es))
  {
    hide At, EncodeEntries, ReadDictionary, NoEmpty;
    var s := Encode(Dict(es));
    var body := EncodeEntries(es) + [CH_E];
    assert s == [CH_D] + body;
    AtWhole(s);
    AtByte(s, 0, CH_D, body);
    var j := FirstEmptyKey(es);
    EmptyKeyDrops(s, 1, es, [], j, NoJunk);
    assert !ReadsBack(Dict(es), s, 0, NoJunk);
  }

  lemma {:induction false} RoundTripsNoEmpty(v: Value)
    requires InWidth(v) && AllRoundTrip(v)
    ensures NoEmpty(v)
  {
    match v
    case Int(_) =>
    case Str(_) =>
    case List(items) =>
      forall i | 0 <= i < |items| ensures NoEmpty(items[i]) { RoundTripsNoEmpty(items[i]); }
    case Dict(entries) =>
      forall i | 0 <= i < |entries| ensures NoEmpty(entries[i].value) { RoundTripsNoEmpty(entries[i].value); }
      if entries == [] {
        EmptyDictionaryBreaks();
      } else if exists i :: 0 <= i < |entries| && entries[i].key == [] {
        EmptyKeyBreaks(entries);
      }
  }

  /**
   The exact condition of the round trip: a value and all its parts can be read back if and only
   if it contains no empty dictionary and no empty key.
   */
  lemma {:induction false} RoundTripIff(v: Value)
    requires InWidth(v)
    ensures AllRoundTrip(v) <==> NoEmpty(v)
  {
    if NoEmpty(v) {
      NoEmptyRoundTrips(v);
    }
    if AllRoundTrip(v) {
      RoundTripsNoEmpty(v);
    }
  }
}
