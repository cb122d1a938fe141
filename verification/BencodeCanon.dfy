/**
 Normal forms and unambiguity: dictionaries collapse to sorted last-wins form, decoding an
 encoded decoding changes nothing, and no encoding is a prefix of another one.
 */
module BencodeCanon {
  import opened Bytes
  import opened Wrappers
  import opened BencodeSpec
  import opened BencodeRoundTrip

  // ---------- The key order ----------

  lemma {:induction false} LessIrreflexive(a: bytes)
    ensures !Less(a, a)
  {
    if a == [] {
    } else {
      LessIrreflexive(a[1..]);
    }
  }

  lemma {:induction false} LessTransitive(a: bytes, b: bytes, c: bytes)
    requires Less(a, b) && Less(b, c)
    ensures Less(a, c)
  {
    if a == [] {
    } else if a[0] == b[0] == c[0] {
      LessTransitive(a[1..], b[1..], c[1..]);
    }
  }

  lemma {:induction false} LessTotal(a: bytes, b: bytes)
    ensures a == b || Less(a, b) || Less(b, a)
  {
    if a == [] || b == [] {
    } else if a[0] == b[0] {
      LessTotal(a[1..], b[1..]);
      if a[1..] == b[1..] {
        assert a == [a[0]] + a[1..] == [b[0]] + b[1..] == b;
      }
    }
  }

  // ---------- Insertion into a sorted map ----------

  lemma {:induction false} SortedTail(es: seq<Entry>)
    requires es != [] && Sorted(es)
    ensures Sorted(es[1..])
    ensures forall i :: 0 <= i < |es| - 1 ==> Less(es[0].key, es[1..][i].key)
  {
    assert forall i :: 0 <= i < |es| - 1 ==> es[1..][i] == es[i + 1];
  }

  lemma {:induction false} SortedCons(e: Entry, es: seq<Entry>)
    requires Sorted(es)
    requires forall i :: 0 <= i < |es| ==> Less(e.key, es[i].key)
    ensures Sorted([e] + es)
  {
    var r := [e] + es;
    forall i, j | 0 <= i < j < |r|
      ensures Less(r[i].key, r[j].key)
    {
      assert r[j] == es[j - 1];
      if i > 0 {
        assert r[i] == es[i - 1];
      }
    }
  }

  /** Insertion keeps the map sorted and adds no other key. */
  lemma {:induction false} InsertSorted(es: seq<Entry>, key: bytes, value: Value)
    requires Sorted(es)
    ensures Sorted(Insert(es, key, value))
    ensures forall x: bytes :: (forall i :: 0 <= i < |es| ==> Less(x, es[i].key)) && Less(x, key)
              ==> forall i :: 0 <= i < |Insert(es, key, value)| ==> Less(x, Insert(es, key, value)[i].key)
    decreases |es|
  {
    hide Less;
    if es == [] {
    } else {
      SortedTail(es);
      if es[0].key == key {
        SortedCons(Entry(key, value), es[1..]);
        assert es == [es[0]] + es[1..];
      } else if Less(key, es[0].key) {
        forall i | 0 <= i < |es| ensures Less(key, es[i].key) {
          if i > 0 {
            assert es[1..][i - 1] == es[i];
            LessTransitive(key, es[0].key, es[i].key);
          }
        }
        SortedCons(Entry(key, value), es);
      } else {
        LessTotal(key, es[0].key);
        InsertSorted(es[1..], key, value);
        SortedCons(es[0], Insert(es[1..], key, value));
        assert forall i :: 0 <= i < |es| - 1 ==> es[1..][i] == es[i + 1];
      }
    }
  }

  /** A lookup after an insertion sees the new value under its key and everything else as before. */
  lemma {:induction false} InsertLookup(es: seq<Entry>, key: bytes, value: Value, x: bytes)
    ensures Lookup(Insert(es, key, value), x) == if x == key then Some(value) else Lookup(es, x)
    decreases |es|
  {
    hide Less;
    if es == [] {
      assert [Entry(key, value)][1..] == [];
    } else if es[0].key == key {
      assert ([Entry(key, value)] + es[1..])[1..] == es[1..];
    } else if Less(key, es[0].key) {
      assert ([Entry(key, value)] + es)[1..] == es;
    } else {
      InsertLookup(es[1..], key, value, x);
      assert ([es[0]] + Insert(es[1..], key, value))[1..] == Insert(es[1..], key, value);
    }
  }

  lemma {:induction false} InsertLast(es: seq<Entry>, key: bytes, value: Value)
    requires forall i :: 0 <= i < |es| ==> Less(es[i].key, key)
    ensures Insert(es, key, value) == es + [Entry(key, value)]
    decreases |es|
  {
    hide Less;
    if es == [] {
    } else {
      LessIrreflexive(key);
      if Less(key, es[0].key) {
        LessTransitive(key, es[0].key, key);
      }
      InsertLast(es[1..], key, value);
    }
  }

  // ---------- Collapsing ----------

  /** The value of the last entry with key `x`. */
  function LastOf(es: seq<Entry>, x: bytes): Option<Value> {
    if es == [] then None
    else
      var later := LastOf(es[1..], x);
      if later.Some? then later
      else if es[0].key == x then Some(es[0].value) else None
  }

  lemma {:induction false} CollapseSorted(acc: seq<Entry>, es: seq<Entry>)
    requires Sorted(acc)
    ensures Sorted(Collapse(acc, es))
    decreases |es|
  {
    hide Sorted, Insert, Norm;
    if es == [] {
    } else {
      InsertSorted(acc, es[0].key, Norm(es[0].value));
      CollapseSorted(Insert(acc, es[0].key, Norm(es[0].value)), es[1..]);
    }
  }

  /** The collapsed map gives each key the value of its last entry. */
  lemma {:induction false} CollapseLastWins(acc: seq<Entry>, es: seq<Entry>, x: bytes)
    ensures Lookup(Collapse(acc, es), x)
         == if LastOf(es, x).Some? then Some(Norm(LastOf(es, x).value)) else Lookup(acc, x)
    decreases |es|
  {
    hide Insert, Norm, Lookup;
    if es == [] {
    } else {
      CollapseLastWins(Insert(acc, es[0].key, Norm(es[0].value)), es[1..], x);
      InsertLookup(acc, es[0].key, Norm(es[0].value), x);
    }
  }

  /**
   A dictionary written with unsorted or repeated keys reads back sorted, each key once, with the
   value written last.
   */
  lemma {:induction false} DecodeLastWins(es: seq<Entry>, rest: bytes, junk: nat -> uint64)
    requires InWidth(Dict(es)) && NoEmpty(Dict(es))
    ensures var r := Decode(Encode(Dict(es)) + rest, junk);
            && r.Got? && Sorted(r.value)
            && forall x: bytes :: Lookup(r.value, x)
                 == if LastOf(es, x).Some? then Some(Norm(LastOf(es, x).value)) else None
  {
    hide Decode, Encode, Collapse, Lookup, LastOf, Norm;
    DecodeEncoded(es, rest, junk);
    CollapseSorted([], es);
    forall x: bytes
      ensures Lookup(Collapse([], es), x) == if LastOf(es, x).Some? then Some(Norm(LastOf(es, x).value)) else None
    {
      CollapseLastWins([], es, x);
      NothingFound(x);
    }
  }

  lemma {:induction false} NothingFound(x: bytes)
    ensures Lookup([], x) == None
  {
  }

  // ---------- Normal values ----------

  /** Integers are unsigned 64-bit values and dictionaries are sorted maps. */
  ghost predicate Normal(v: Value) {
    match v
    case Int(n) => 0 <= n < TWO64
    case Str(s) => true
    case List(items) => forall i :: 0 <= i < |items| ==> Normal(items[i])
    case Dict(entries) => Sorted(entries) && forall i :: 0 <= i < |entries| ==> Normal(entries[i].value)
  }

  lemma {:induction false} InsertNormal(es: seq<Entry>, key: bytes, value: Value)
    requires Normal(value)
    requires forall i :: 0 <= i < |es| ==> Normal(es[i].value)
    ensures forall i :: 0 <= i < |Insert(es, key, value)| ==> Normal(Insert(es, key, value)[i].value)
    decreases |es|
  {
    hide Less, Normal;
    if es != [] && es[0].key != key && !Less(key, es[0].key) {
      InsertNormal(es[1..], key, value);
    }
  }

  lemma {:induction false} NormIsNormal(v: Value)
    ensures Normal(Norm(v))
    decreases v
  {
    match v
    case Int(_) =>
    case Str(_) =>
    case List(items) => NormAllIsNormal(items);
    case Dict(entries) =>
      CollapseSorted([], entries);
      CollapseIsNormal([], entries);
  }

  lemma {:induction false} NormAllIsNormal(vs: seq<Value>)
    ensures forall i :: 0 <= i < |NormAll(vs)| ==> Normal(NormAll(vs)[i])
    decreases vs
  {
    if vs == [] {
    } else {
      NormIsNormal(vs[0]);
      NormAllIsNormal(vs[1..]);
    }
  }

  lemma {:induction false} CollapseIsNormal(acc: seq<Entry>, es: seq<Entry>)
    requires forall i :: 0 <= i < |acc| ==> Normal(acc[i].value)
    ensures forall i :: 0 <= i < |Collapse(acc, es)| ==> Normal(Collapse(acc, es)[i].value)
    decreases es
  {
    hide Normal;
    if es == [] {
    } else {
      NormIsNormal(es[0].value);
      InsertNormal(acc, es[0].key, Norm(es[0].value));
      CollapseIsNormal(Insert(acc, es[0].key, Norm(es[0].value)), es[1..]);
    }
  }

  /** A normal value is its own normal form. */
  lemma {:induction false} NormalStays(v: Value)
    requires Normal(v)
    ensures Norm(v) == v
    decreases v
  {
    match v
    case Int(_) =>
    case Str(_) =>
    case List(items) => NormalAllStay(items);
    case Dict(entries) => SortedStays([], entries);
  }

  lemma {:induction false} NormalAllStay(vs: seq<Value>)
    requires forall i :: 0 <= i < |vs| ==> Normal(vs[i])
    ensures NormAll(vs) == vs
    decreases vs
  {
    if vs == [] {
    } else {
      NormalStays(vs[0]);
      NormalAllStay(vs[1..]);
    }
  }

  lemma {:induction false} SortedStays(acc: seq<Entry>, es: seq<Entry>)
    requires Sorted(acc + es)
    requires forall i :: 0 <= i < |es| ==> Normal(es[i].value)
    ensures Collapse(acc, es) == acc + es
    decreases es
  {
    hide Normal, Less, Norm, Insert;
    if es == [] {
      assert acc + es == acc;
    } else {
      NormalStays(es[0].value);
      forall i | 0 <= i < |acc| ensures Less(acc[i].key, es[0].key) {
        assert (acc + es)[i] == acc[i] && (acc + es)[|acc|] == es[0];
      }
      InsertLast(acc, es[0].key, es[0].value);
      assert Entry(es[0].key, es[0].value) == es[0];
      assert acc + [es[0]] + es[1..] == acc + es;
      SortedStays(acc + [es[0]], es[1..]);
    }
  }

  /** Normalisation is idempotent. */
  lemma {:induction false} NormIdempotent(v: Value)
    ensures Norm(Norm(v)) == Norm(v)
  {
    NormIsNormal(v);
    NormalStays(Norm(v));
  }

  // ---------- What the decoder returns ----------

  /** A value as the decoder builds it: normal, without empty keys, strings within the buffer. */
  ghost predicate Decoded(v: Value, size: nat) {
    match v
    case Int(n) => 0 <= n < TWO64
    case Str(s) => |s| <= size
    case List(items) => forall i :: 0 <= i < |items| ==> Decoded(items[i], size)
    case Dict(entries) => Sorted(entries) && DecodedEntries(entries, size)
  }

  ghost predicate DecodedEntries(entries: seq<Entry>, size: nat) {
    forall i :: 0 <= i < |entries| ==>
      entries[i].key != [] && |entries[i].key| <= size && Decoded(entries[i].value, size)
  }

  lemma {:induction false} InsertDecoded(es: seq<Entry>, key: bytes, value: Value, size: nat)
    requires DecodedEntries(es, size) && key != [] && |key| <= size && Decoded(value, size)
    ensures DecodedEntries(Insert(es, key, value), size)
    decreases |es|
  {
    hide Less, Decoded;
    if es != [] && es[0].key != key && !Less(key, es[0].key) {
      InsertDecoded(es[1..], key, value, size);
    }
  }

  /** Whatever the input bytes are, the decoder only ever builds values of this form. */
  lemma {:induction false} ReadValueDecoded(s: bytes, pos: nat, junk: nat -> uint64)
    requires pos < |s| && ReadValue(s, pos, junk).Got?
    ensures Decoded(ReadValue(s, pos, junk).value, |s|)
    decreases |s| - pos, 0
  {
    hide ReadUint;
    if s[pos] == CH_I {
    } else if s[pos] == CH_L {
      ReadVectorDecoded(s, pos + 1, junk);
    } else if s[pos] == CH_D {
      ReadDictionaryDecoded(s, pos + 1, [], junk);
    }
  }

  lemma {:induction false} ReadVectorDecoded(s: bytes, pos: nat, junk: nat -> uint64)
    requires ReadVector(s, pos, junk).Got?
    ensures var r := ReadVector(s, pos, junk).value;
            forall i :: 0 <= i < |r| ==> Decoded(r[i], |s|)
    decreases |s| - pos, 1
  {
    hide Decoded, ReadValue;
    if pos < |s| && s[pos] != CH_E {
      ReadValueDecoded(s, pos, junk);
      ReadVectorDecoded(s, ReadValue(s, pos, junk).pos, junk);
    }
  }

  lemma {:induction false} ReadDictionaryDecoded(s: bytes, pos: nat, acc: seq<Entry>, junk: nat -> uint64)
    requires Sorted(acc) && DecodedEntries(acc, |s|)
    requires ReadDictionary(s, pos, acc, junk).Got?
    ensures Sorted(ReadDictionary(s, pos, acc, junk).value)
    ensures DecodedEntries(ReadDictionary(s, pos, acc, junk).value, |s|)
    decreases |s| - pos, 1
  {
    var key := ReadString(s, pos, junk);
    ReadStringBound(s, pos, junk);
    hide Decoded, ReadValue, ReadString, Insert, Less;
    if key.value != [] && key.pos < |s| {
      var v := ReadValue(s, key.pos, junk);
      ReadValueDecoded(s, key.pos, junk);
      InsertSorted(acc, key.value, v.value);
      InsertDecoded(acc, key.value, v.value, |s|);
      if v.pos < |s| && s[v.pos] != CH_E {
        ReadDictionaryDecoded(s, v.pos, Insert(acc, key.value, v.value), junk);
      }
    }
  }

  lemma {:induction false} ReadStringBound(s: bytes, pos: nat, junk: nat -> uint64)
    ensures ReadString(s, pos, junk).Got? ==> |ReadString(s, pos, junk).value| <= |s|
  {
    hide ReadUint;
  }

  lemma {:induction false} DecodedIsNormal(v: Value, size: nat)
    requires Decoded(v, size) && size < TWO64
    ensures Normal(v) && InWidth(v)
  {
    match v
    case Int(_) =>
    case Str(_) =>
    case List(items) =>
      forall i | 0 <= i < |items| ensures Normal(items[i]) && InWidth(items[i]) { DecodedIsNormal(items[i], size); }
    case Dict(entries) =>
      forall i | 0 <= i < |entries| ensures Normal(entries[i].value) && InWidth(entries[i].value) {
        DecodedIsNormal(entries[i].value, size);
      }
  }

  lemma {:induction false} DecodeDecoded(data: bytes, junk: nat -> uint64)
    requires data != [] && Decode(data, junk).Got?
    ensures Decoded(Dict(Decode(data, junk).value), |data|)
  {
    hide ReadDictionary;
    if data[0] == CH_D {
      ReadDictionaryDecoded(data[1..], 0, [], junk);
      DecodedGrows(Decode(data, junk).value, |data| - 1, |data|);
    }
  }

  lemma {:induction false} DecodedValueGrows(v: Value, m: nat, n: nat)
    requires Decoded(v, m) && m <= n
    ensures Decoded(v, n)
  {
    match v
    case Int(_) =>
    case Str(_) =>
    case List(items) =>
      forall i | 0 <= i < |items| ensures Decoded(items[i], n) { DecodedValueGrows(items[i], m, n); }
    case Dict(entries) =>
      forall i | 0 <= i < |entries| ensures Decoded(entries[i].value, n) { DecodedValueGrows(entries[i].value, m, n); }
  }

  lemma {:induction false} DecodedGrows(es: seq<Entry>, m: nat, n: nat)
    requires DecodedEntries(es, m) && m <= n
    ensures DecodedEntries(es, n)
  {
    forall i | 0 <= i < |es| ensures Decoded(es[i].value, n) { DecodedValueGrows(es[i].value, m, n); }
  }

  /**
   For any input at all: if what was decoded has no empty dictionary in it, encoding it and
   decoding again gives the same map, whatever the uninitialised integers of either run were.
   */
  lemma {:induction false} DecodeEncodeDecode(data: bytes, rest: bytes, junk: nat -> uint64, junk': nat -> uint64)
    requires data != [] && |data| < TWO64
    requires Decode(data, junk).Got? && NoEmpty(Dict(Decode(data, junk).value))
    ensures var es := Decode(data, junk).value;
            Decode(Encode(Dict(es)) + rest, junk') == Got(es, |Encode(Dict(es))| - 1)
  {
    var es := Decode(data, junk).value;
    DecodeDecoded(data, junk);
    DecodedIsNormal(Dict(es), |data|);
    DecodeEncoded(es, rest, junk');
    NormalStays(Dict(es));
  }

  // ---------- No encoding is a prefix of another ----------

  lemma {:induction false} DecNoMark(n: nat)
    ensures forall k :: 0 <= k < |Dec(n)| ==> Dec(n)[k] != CH_E && Dec(n)[k] != COLON && Dec(n)[k] != MINUS
  {
  }

  // Text without the mark, up to the first mark, is determined by the whole.
  lemma {:induction false} SameUpToMark(a: bytes, b: bytes, mark: byte, r: bytes, q: bytes)
    requires forall k :: 0 <= k < |a| ==> a[k] != mark
    requires forall k :: 0 <= k < |b| ==> b[k] != mark
    requires a + [mark] + r == b + [mark] + q
    ensures a == b && r == q
    decreases |a|
  {
    var x, y := a + [mark] + r, b + [mark] + q;
    assert a == [] ==> x[0] == mark;
    assert b == [] ==> y[0] == mark;
    assert b != [] ==> y[0] == b[0];
    if a == [] {
      assert x[1..] == r && y[1..] == q;
    } else {
      assert x[0] == a[0];
      assert x[1..] == a[1..] + [mark] + r;
      assert y[1..] == b[1..] + [mark] + q;
      SameUpToMark(a[1..], b[1..], mark, r, q);
      assert a == [a[0]] + a[1..] && b == [b[0]] + b[1..];
    }
  }

  lemma {:induction false} DecInjective(m: nat, n: nat)
    requires Dec(m) == Dec(n)
    ensures m == n
  {
    DigitsOfDec(m);
    DigitsOfDec(n);
  }

  lemma {:induction false} DecIntInjective(m: int, n: int)
    requires DecInt(m) == DecInt(n)
    ensures m == n
  {
    if m < 0 {
      DecNoMark(if n < 0 then 0 else n);
      assert DecInt(m)[0] == MINUS;
      assert n < 0;
      assert DecInt(m)[1..] == Dec(-m) && DecInt(n)[1..] == Dec(-n);
      DecInjective(-m, -n);
    } else {
      DecNoMark(m);
      assert DecInt(m)[0] != MINUS;
      DecInjective(m, n);
    }
  }

  lemma {:induction false} DecIntNoMark(n: int)
    ensures forall k :: 0 <= k < |DecInt(n)| ==> DecInt(n)[k] != CH_E
  {
    DecNoMark(if n < 0 then -n else n);
  }

  lemma {:induction false} StringPrefixFree(a: bytes, b: bytes, r: bytes, q: bytes)
    requires EncodeStr(a) + r == EncodeStr(b) + q
    ensures a == b && r == q
  {
    DecNoMark(|a|);
    DecNoMark(|b|);
    assert EncodeStr(a) + r == Dec(|a|) + [COLON] + (a + r);
    assert EncodeStr(b) + q == Dec(|b|) + [COLON] + (b + q);
    SameUpToMark(Dec(|a|), Dec(|b|), COLON, a + r, b + q);
    DecInjective(|a|, |b|);
    assert a == (a + r)[..|a|] && b == (b + q)[..|b|];
    assert r == (a + r)[|a|..] && q == (b + q)[|b|..];
  }

  lemma {:induction false} TagOf(v: Value, r: bytes)
    ensures (Encode(v) + r)[0] == Encode(v)[0]
  {
  }

  lemma {:induction false} Rest(tag: byte, a: bytes, r: bytes, b: bytes, q: bytes)
    requires [tag] + a + [CH_E] + r == [tag] + b + [CH_E] + q
    ensures a + [CH_E] + r == b + [CH_E] + q
  {
    assert ([tag] + a + [CH_E] + r)[1..] == a + [CH_E] + r;
    assert ([tag] + b + [CH_E] + q)[1..] == b + [CH_E] + q;
  }

  /**
   Encoded values are self-delimiting: if two byte strings that start with an encoded value are
   equal, the values and the remainders are. For all values, readable or not.
   */
  lemma {:induction false} PrefixFree(v: Value, w: Value, r: bytes, q: bytes)
    requires Encode(v) + r == Encode(w) + q
    ensures v == w && r == q
    decreases v
  {
    hide DecInt, EncodeStr, EncodeAll, EncodeEntries;
    TagOf(v, r);
    TagOf(w, q);
    EncodeStart(v);
    EncodeStart(w);
    match v
    case Int(n) =>
      Rest(CH_I, DecInt(n), r, DecInt(w.n), q);
      DecIntNoMark(n);
      DecIntNoMark(w.n);
      SameUpToMark(DecInt(n), DecInt(w.n), CH_E, r, q);
      DecIntInjective(n, w.n);
    case Str(x) =>
      StringPrefixFree(x, w.s, r, q);
    case List(items) =>
      Rest(CH_L, EncodeAll(items), r, EncodeAll(w.items), q);
      AllPrefixFree(items, w.items, r, q);
    case Dict(entries) =>
      Rest(CH_D, EncodeEntries(entries), r, EncodeEntries(w.entries), q);
      EntriesPrefixFree(entries, w.entries, r, q);
  }

  lemma {:induction false} AllSplit(vs: seq<Value>, r: bytes)
    ensures vs != [] ==> EncodeAll(vs) + [CH_E] + r == Encode(vs[0]) + (EncodeAll(vs[1..]) + [CH_E] + r)
    ensures (EncodeAll(vs) + [CH_E] + r)[0] == CH_E <==> vs == []
  {
    hide Encode;
    if vs != [] {
      EncodeStart(vs[0]);
      assert EncodeAll(vs) + [CH_E] + r == Encode(vs[0]) + (EncodeAll(vs[1..]) + [CH_E] + r);
    }
  }

  lemma {:induction false} AllPrefixFree(vs: seq<Value>, ws: seq<Value>, r: bytes, q: bytes)
    requires EncodeAll(vs) + [CH_E] + r == EncodeAll(ws) + [CH_E] + q
    ensures vs == ws && r == q
    decreases vs
  {
    AllSplit(vs, r);
    AllSplit(ws, q);
    if vs == [] {
      SameUpToMark([], [], CH_E, r, q) by {
        assert [] + [CH_E] + r == EncodeAll(vs) + [CH_E] + r;
        assert [] + [CH_E] + q == EncodeAll(ws) + [CH_E] + q;
      }
    } else {
      hide Encode, EncodeAll;
      PrefixFree(vs[0], ws[0], EncodeAll(vs[1..]) + [CH_E] + r, EncodeAll(ws[1..]) + [CH_E] + q);
      AllPrefixFree(vs[1..], ws[1..], r, q);
      assert vs == [vs[0]] + vs[1..] && ws == [ws[0]] + ws[1..];
    }
  }

  lemma {:induction false} EntriesSplit(es: seq<Entry>, r: bytes)
    ensures es != [] ==>
              EncodeEntries(es) + [CH_E] + r
              == EncodeStr(es[0].key) + (Encode(es[0].value) + (EncodeEntries(es[1..]) + [CH_E] + r))
    ensures (EncodeEntries(es) + [CH_E] + r)[0] == CH_E <==> es == []
  {
    hide Encode, EncodeStr;
    if es != [] {
      KeyStart(es[0].key);
      assert EncodeEntries(es) + [CH_E] + r
          == EncodeStr(es[0].key) + (Encode(es[0].value) + (EncodeEntries(es[1..]) + [CH_E] + r));
    }
  }

  lemma {:induction false} EntriesPrefixFree(es: seq<Entry>, fs: seq<Entry>, r: bytes, q: bytes)
    requires EncodeEntries(es) + [CH_E] + r == EncodeEntries(fs) + [CH_E] + q
    ensures es == fs && r == q
    decreases es
  {
    EntriesSplit(es, r);
    EntriesSplit(fs, q);
    if es == [] {
      SameUpToMark([], [], CH_E, r, q) by {
        assert [] + [CH_E] + r == EncodeEntries(es) + [CH_E] + r;
        assert [] + [CH_E] + q == EncodeEntries(fs) + [CH_E] + q;
      }
    } else {
      hide Encode, EncodeStr, EncodeEntries;
      var r', q' := EncodeEntries(es[1..]) + [CH_E] + r, EncodeEntries(fs[1..]) + [CH_E] + q;
      StringPrefixFree(es[0].key, fs[0].key, Encode(es[0].value) + r', Encode(fs[0].value) + q');
      PrefixFree(es[0].value, fs[0].value, r', q');
      EntriesPrefixFree(es[1..], fs[1..], r, q);
      assert es == [es[0]] + es[1..] && fs == [fs[0]] + fs[1..];
    }
  }

  /** Different values have different encodings. */
  lemma {:induction false} EncodeInjective(v: Value, w: Value)
    requires Encode(v) == Encode(w)
    ensures v == w
  {
    assert Encode(v) + [] == Encode(w) + [];
    PrefixFree(v, w, [], []);
  }
}
