/**
 Bencode (BEP 3, section "bencoding") as bencode/encoder.cpp writes it and bencode/decoder.cpp
 reads it, as functions on byte strings and cursor positions.
 */
module BencodeSpec {
  import opened Bytes
  import opened Wrappers

  /**
   A tree of values. `Dict` lists its entries in the order they are written; the decoder's maps
   are the sorted lists without repeated keys.
   */
  datatype Value =
    | Int(n: int)
    | Str(s: bytes)
    | List(items: seq<Value>)
    | Dict(entries: seq<Entry>)

  datatype Entry = Entry(key: bytes, value: Value)

  const CH_0: byte := 0x30
  const CH_9: byte := 0x39
  const COLON: byte := 0x3a
  const MINUS: byte := 0x2d
  const PLUS: byte := 0x2b
  const CH_D: byte := 0x64
  const CH_E: byte := 0x65
  const CH_I: byte := 0x69
  const CH_L: byte := 0x6c

  const TWO64: nat := 0x1_0000_0000_0000_0000

  // ---------- Encoding ----------

  predicate IsDigit(b: byte) { CH_0 <= b <= CH_9 }

  /** `std::to_string` of an unsigned and of a signed number. */
  function Dec(n: nat): (r: bytes)
    ensures |r| >= 1
    ensures forall k :: 0 <= k < |r| ==> IsDigit(r[k])
  {
    if n < 10 then [CH_0 + n] else Dec(n / 10) + [CH_0 + n % 10]
  }

  function DecInt(n: int): (r: bytes)
    ensures |r| >= 1
  {
    if n < 0 then [MINUS] + Dec(-n) else Dec(n)
  }

  function EncodeStr(s: bytes): bytes {
    Dec(|s|) + [COLON] + s
  }

  /** `writeType`. */
  function Encode(v: Value): (r: bytes)
    ensures |r| >= 2
  {
    match v
    case Int(n) => [CH_I] + DecInt(n) + [CH_E]
    case Str(s) => EncodeStr(s)
    case List(items) => [CH_L] + EncodeAll(items) + [CH_E]
    case Dict(entries) => [CH_D] + EncodeEntries(entries) + [CH_E]
  }

  function EncodeAll(vs: seq<Value>): bytes {
    if vs == [] then [] else Encode(vs[0]) + EncodeAll(vs[1..])
  }

  function EncodeEntries(es: seq<Entry>): bytes {
    if es == [] then [] else EncodeStr(es[0].key) + Encode(es[0].value) + EncodeEntries(es[1..])
  }

  // ---------- Maps ----------

  /** The order of `std::map<std::string, ...>`: lexicographic on unsigned bytes. */
  predicate Less(a: bytes, b: bytes) {
    if b == [] then false
    else if a == [] then true
    else a[0] < b[0] || (a[0] == b[0] && Less(a[1..], b[1..]))
  }

  ghost predicate Sorted(es: seq<Entry>) {
    forall i, j :: 0 <= i < j < |es| ==> Less(es[i].key, es[j].key)
  }

  /** `ret[key] = value` on a sorted map. */
  function Insert(es: seq<Entry>, key: bytes, value: Value): (r: seq<Entry>)
    ensures r != []
  {
    if es == [] then [Entry(key, value)]
    else if es[0].key == key then [Entry(key, value)] + es[1..]
    else if Less(key, es[0].key) then [Entry(key, value)] + es
    else [es[0]] + Insert(es[1..], key, value)
  }

  function Lookup(es: seq<Entry>, key: bytes): Option<Value> {
    if es == [] then None
    else if es[0].key == key then Some(es[0].value)
    else Lookup(es[1..], key)
  }

  // ---------- Decoding ----------

  /** A read either stops at the assertion of the buffer, or yields a value and the new cursor. */
  datatype Result<+T> = Halt | Got(value: T, pos: nat)

  predicate IsSpace(b: byte) { b == 0x20 || 0x09 <= b <= 0x0d }

  function SkipSpace(t: bytes): bytes {
    if t != [] && IsSpace(t[0]) then SkipSpace(t[1..]) else t
  }

  /** The number written by the digits `t` starts with, and whether there is one, continuing from `acc`. */
  function DigitsFrom(t: bytes, acc: nat): nat {
    if t != [] && IsDigit(t[0]) then DigitsFrom(t[1..], acc * 10 + (t[0] - CH_0)) else acc
  }

  /**
   `is >> value` for an unsigned 64-bit value: leading white space and one sign are skipped, the
   digits up to the first other byte count. No digits give zero, too large a number the largest
   value, a minus sign the value modulo 2^64. A token without any visible byte leaves the
   variable as it was, which is `None`.
   */
  function ParseUint(token: bytes): (r: Option<uint64>) {
    var t := SkipSpace(token);
    if t == [] then None
    else
      var n := DigitsFrom(if t[0] == MINUS || t[0] == PLUS then t[1..] else t, 0);
      if n >= TWO64 then Some(TWO64 - 1)
      else if t[0] == MINUS then Some((TWO64 - n) % TWO64)
      else Some(n)
  }

  /** The position of the first `b` at or after `pos`; a position outside `s` if there is none. */
  function Find(s: bytes, pos: nat, b: byte): (r: nat)
    ensures pos <= r
    ensures r < |s| ==> s[r] == b
    ensures forall k :: pos <= k < r && k < |s| ==> s[k] != b
    decreases |s| - pos
  {
    if pos < |s| && s[pos] != b then Find(s, pos + 1, b) else pos
  }

  /**
   `readIntUntil`. `junk` stands for the uninitialised variable of the caller, which a token
   without visible bytes leaves as it is.
   */
  function ReadUint(s: bytes, pos: nat, delim: byte, junk: nat -> uint64): (r: Result<uint64>)
    ensures r.Got? ==> pos < r.pos <= |s|
  {
    var end := Find(s, pos, delim);
    if end >= |s| then Halt
    else
      var n := ParseUint(s[pos..end]);
      Got(if n.Some? then n.value else junk(pos), end + 1)
  }

  /**
   `readString`: a length that reaches past the buffer gives the empty string. An empty string at
   the very end stops at the assertion of the buffer, which checks the address copied from.
   */
  function ReadString(s: bytes, pos: nat, junk: nat -> uint64): (r: Result<bytes>)
    ensures r.Got? ==> pos < r.pos <= |s|
  {
    var len := ReadUint(s, pos, COLON, junk);
    if len.Halt? then Halt
    else if len.value + len.pos > |s| then Got([], len.pos)
    else if len.pos == |s| then Halt
    else Got(s[len.pos..len.pos + len.value], len.pos + len.value)
  }

  /** The dispatch on the tag byte that `readVector` and `readDictionary` share. */
  function ReadValue(s: bytes, pos: nat, junk: nat -> uint64): (r: Result<Value>)
    requires pos < |s|
    ensures r.Got? ==> pos < r.pos <= |s|
    decreases |s| - pos, 0
  {
    if s[pos] == CH_I then
      var r := ReadUint(s, pos + 1, CH_E, junk);
      if r.Halt? then Halt else Got(Int(r.value), r.pos)
    else if s[pos] == CH_L then
      var r := ReadVector(s, pos + 1, junk);
      if r.Halt? then Halt else Got(List(r.value), r.pos)
    else if s[pos] == CH_D then
      var r := ReadDictionary(s, pos + 1, [], junk);
      if r.Halt? then Halt else Got(Dict(r.value), r.pos)
    else
      var r := ReadString(s, pos, junk);
      if r.Halt? then Halt else Got(Str(r.value), r.pos)
  }

  /** `readVector`: the end of the buffer ends the list like an `e` does. */
  function ReadVector(s: bytes, pos: nat, junk: nat -> uint64): (r: Result<seq<Value>>)
    ensures r.Got? ==> pos <= r.pos && (pos <= |s| ==> r.pos <= |s|)
    decreases |s| - pos, 1
  {
    if pos >= |s| then Got([], pos)
    else if s[pos] == CH_E then Got([], pos + 1)
    else
      var v := ReadValue(s, pos, junk);
      if v.Halt? then Halt
      else
        var rest := ReadVector(s, v.pos, junk);
        if rest.Halt? then Halt else Got([v.value] + rest.value, rest.pos)
  }

  /** `readDictionary`, with the entries read so far: an empty key or the end of the buffer discards them all. */
  function ReadDictionary(s: bytes, pos: nat, acc: seq<Entry>, junk: nat -> uint64): (r: Result<seq<Entry>>)
    ensures r.Got? ==> pos < r.pos <= |s|
    decreases |s| - pos, 1
  {
    var key := ReadString(s, pos, junk);
    if key.Halt? then Halt
    else if key.value == [] then Got([], key.pos)
    else if key.pos >= |s| then Got([], key.pos)
    else
      var v := ReadValue(s, key.pos, junk);
      if v.Halt? then Halt
      else
        var acc' := Insert(acc, key.value, v.value);
        if v.pos >= |s| then Got([], v.pos)
        else if s[v.pos] == CH_E then Got(acc', v.pos + 1)
        else ReadDictionary(s, v.pos, acc', junk)
  }

  /** `decode` on a new object: nothing is read unless the data starts with a `d`. */
  function Decode(data: bytes, junk: nat -> uint64): Result<seq<Entry>>
    requires data != []
  {
    if data[0] != CH_D then Got([], 0) else ReadDictionary(data[1..], 0, [], junk)
  }
}
