/**
 The class of bencode/bencode.h: one buffer and one cursor that the decoder reads through and
 the encoder then appends to, each method proved against the functions of BencodeSpec.
 */
module Bencode {
  import opened Bytes
  import opened Wrappers
  import opened DataBuffers
  import opened BencodeSpec

  class Bencode {
    const buf: DataBuffer<byte>
    var pos: nat

    ghost predicate Valid()
      reads this, buf
    {
      buf.Valid()
    }

    /** The whole buffer, up to its capacity: what the decoder reads. */
    ghost function Input(): bytes
      reads buf, buf.buffer
    {
      buf.buffer[..]
    }

    constructor ()
      ensures Valid() && pos == 0 && buf.buffer.Length == 64
      ensures fresh(buf) && fresh(buf.buffer)
    {
      buf := new DataBuffer<byte>(64);
      pos := 0;
    }

    // ---------- Decoding ----------

    /** `decode(const char *, size_t)`. `halted` is the assertion stop of the buffer. */
    method Decode(data: bytes, junk: nat -> uint64) returns (halted: bool, value: seq<Entry>)
      requires Valid() && data != [] && pos == 0
      modifies this`pos, buf
      ensures Valid()
      ensures data[0] == CH_D ==> fresh(buf.buffer) && buf.size == 0 && Input() == data[1..]
      ensures data[0] != CH_D ==> Input() == old(Input()) && buf.buffer == old(buf.buffer)
      ensures (if halted then Halt else Got(value, pos)) == BencodeSpec.Decode(data, junk)
    {
      if data[0] != CH_D {
        return false, [];
      }
      buf.SetData(data[1..]);
      halted, value := ReadDictionary(junk);
    }

    /** `unpackByte`. */
    method UnpackByte() returns (ok: bool, b: byte)
      modifies this`pos
      ensures ok <==> old(pos) < buf.buffer.Length
      ensures ok ==> pos == old(pos) + 1 && b == Input()[old(pos)]
      ensures !ok ==> pos == old(pos)
    {
      if pos + 1 > buf.buffer.Length {
        return false, 0;
      }
      b := buf.buffer[pos];
      pos := pos + 1;
      return true, b;
    }

    /** `readIntUntil` for an unsigned 64-bit value. */
    method ReadUintUntil(delim: byte, junk: nat -> uint64) returns (halted: bool, value: uint64)
      requires Valid() && buf.size == 0
      modifies this`pos
      ensures (if halted then Halt else Got(value, pos)) == ReadUint(Input(), old(pos), delim, junk)
    {
      var p := pos;
      while p < buf.buffer.Length && buf.buffer[p] != delim
        invariant pos == old(pos) && pos <= p
        invariant Find(Input(), pos, delim) == Find(Input(), p, delim)
        decreases buf.buffer.Length - p
      {
        p := p + 1;
      }
      if p >= buf.buffer.Length {
        // Indexing at the capacity stops at the assertion in the buffer.
        return true, 0;
      }
      // The token is never longer than the room left, because the size is zero while decoding.
      assert p - pos <= buf.buffer.Length - buf.size;
      var token := buf.buffer[pos..p];
      assert token == Input()[pos..p];
      var n := ParseUint(token);
      value := if n.Some? then n.value else junk(pos);
      pos := p + 1;
      return false, value;
    }

    method ReadString(junk: nat -> uint64) returns (halted: bool, value: bytes)
      requires Valid() && buf.size == 0
      modifies this`pos
      ensures (if halted then Halt else Got(value, pos)) == BencodeSpec.ReadString(Input(), old(pos), junk)
    {
      hide ReadUint;
      var h, len := ReadUintUntil(COLON, junk);
      if h {
        return true, [];
      }
      if len + pos > buf.buffer.Length {
        return false, [];
      }
      if pos == buf.buffer.Length {
        // The address of the byte at the capacity stops at the assertion in the buffer.
        return true, [];
      }
      value := buf.buffer[pos..pos + len];
      assert value == Input()[pos..pos + len];
      pos := pos + len;
      return false, value;
    }

    /** The `switch` on a tag byte just unpacked, which `readVector` and `readDictionary` share. */
    method ReadTagged(b: byte, junk: nat -> uint64) returns (halted: bool, item: Value)
      requires Valid() && buf.size == 0
      requires 0 < pos <= buf.buffer.Length && b == Input()[pos - 1]
      modifies this`pos
      ensures (if halted then Halt else Got(item, pos)) == BencodeSpec.ReadValue(Input(), old(pos) - 1, junk)
      decreases buf.buffer.Length - pos, 2
    {
      hide ReadUint, BencodeSpec.ReadString, BencodeSpec.ReadVector, BencodeSpec.ReadDictionary, BencodeSpec.ReadValue;
      ValueUnfold(Input(), pos - 1, junk);
      if b == CH_I {
        var h, n := ReadUintUntil(CH_E, junk);
        return h, Int(n);
      } else if b == CH_L {
        var h, items := ReadVector(junk);
        return h, List(items);
      } else if b == CH_D {
        var h, entries := ReadDictionary(junk);
        return h, Dict(entries);
      } else {
        pos := pos - 1;
        var h, x := ReadString(junk);
        return h, Str(x);
      }
    }

    /** `readVector`. */
    method ReadVector(junk: nat -> uint64) returns (halted: bool, ret: seq<Value>)
      requires Valid() && buf.size == 0
      modifies this`pos
      ensures (if halted then Halt else Got(ret, pos)) == BencodeSpec.ReadVector(Input(), old(pos), junk)
      decreases buf.buffer.Length - pos, 1
    {
      hide ReadUint, BencodeSpec.ReadString, BencodeSpec.ReadVector, BencodeSpec.ReadDictionary, BencodeSpec.ReadValue;
      ret := [];
      Prefixed(BencodeSpec.ReadVector(Input(), pos, junk));
      while true
        invariant pos >= old(pos)
        invariant BencodeSpec.ReadVector(Input(), old(pos), junk)
               == Prefix(ret, BencodeSpec.ReadVector(Input(), pos, junk))
        decreases buf.buffer.Length - pos
      {
        VectorUnfold(Input(), pos, junk);
        var ok, b := UnpackByte();
        PrefixEnds(ret, pos);
        if !ok {
          return false, ret;
        }
        if b == CH_E {
          return false, ret;
        }
        var h, item := ReadTagged(b, junk);
        if h {
          return true, ret;
        }
        PrefixStep(ret, item, BencodeSpec.ReadVector(Input(), pos, junk));
        ret := ret + [item];
      }
    }

    /** `readDictionary`. */
    method ReadDictionary(junk: nat -> uint64) returns (halted: bool, ret: seq<Entry>)
      requires Valid() && buf.size == 0
      modifies this`pos
      ensures (if halted then Halt else Got(ret, pos)) == BencodeSpec.ReadDictionary(Input(), old(pos), [], junk)
      decreases buf.buffer.Length - pos, 1
    {
      hide ReadUint, BencodeSpec.ReadString, BencodeSpec.ReadVector, BencodeSpec.ReadDictionary, BencodeSpec.ReadValue, Insert;
      ret := [];
      while true
        invariant pos >= old(pos)
        invariant BencodeSpec.ReadDictionary(Input(), old(pos), [], junk)
               == BencodeSpec.ReadDictionary(Input(), pos, ret, junk)
        decreases buf.buffer.Length - pos
      {
        DictionaryUnfold(Input(), pos, ret, junk);
        var h, key := ReadString(junk);
        if h {
          return true, [];
        }
        if key == [] {
          return false, [];
        }
        var ok, b := UnpackByte();
        if !ok {
          return false, [];
        }
        var h', item := ReadTagged(b, junk);
        if h' {
          return true, [];
        }
        ret := Insert(ret, key, item);
        ok, b := UnpackByte();
        if !ok {
          return false, [];
        }
        if b == CH_E {
          return false, ret;
        }
        pos := pos - 1;
      }
    }

    // The list read so far in front of what is still to be read.
    static function Prefix(xs: seq<Value>, r: Result<seq<Value>>): Result<seq<Value>> {
      if r.Halt? then Halt else Got(xs + r.value, r.pos)
    }

    static lemma {:induction false} Prefixed(r: Result<seq<Value>>)
      ensures Prefix([], r) == r
    {
      if r.Got? {
        assert [] + r.value == r.value;
      }
    }

    static lemma {:induction false} PrefixEnds(xs: seq<Value>, p: nat)
      ensures Prefix(xs, Got([], p)) == Got(xs, p)
    {
      assert xs + [] == xs;
    }

    static lemma {:induction false} PrefixStep(xs: seq<Value>, x: Value, r: Result<seq<Value>>)
      ensures Prefix(xs, if r.Halt? then Halt else Got([x] + r.value, r.pos)) == Prefix(xs + [x], r)
    {
      if r.Got? {
        assert xs + ([x] + r.value) == xs + [x] + r.value;
      }
    }

    static lemma {:induction false} VectorUnfold(s: bytes, p: nat, junk: nat -> uint64)
      ensures BencodeSpec.ReadVector(s, p, junk)
           == if p >= |s| then Got([], p)
              else if s[p] == CH_E then Got([], p + 1)
              else
                var v := BencodeSpec.ReadValue(s, p, junk);
                if v.Halt? then Halt
                else
                  var rest := BencodeSpec.ReadVector(s, v.pos, junk);
                  if rest.Halt? then Halt else Got([v.value] + rest.value, rest.pos)
    {
      hide BencodeSpec.ReadValue;
    }

    static lemma {:induction false} ValueUnfold(s: bytes, p: nat, junk: nat -> uint64)
      requires p < |s|
      ensures BencodeSpec.ReadValue(s, p, junk)
           == if s[p] == CH_I then
                var r := ReadUint(s, p + 1, CH_E, junk);
                if r.Halt? then Halt else Got(Int(r.value), r.pos)
              else if s[p] == CH_L then
                var r := BencodeSpec.ReadVector(s, p + 1, junk);
                if r.Halt? then Halt else Got(List(r.value), r.pos)
              else if s[p] == CH_D then
                var r := BencodeSpec.ReadDictionary(s, p + 1, [], junk);
                if r.Halt? then Halt else Got(Dict(r.value), r.pos)
              else
                var r := BencodeSpec.ReadString(s, p, junk);
                if r.Halt? then Halt else Got(Str(r.value), r.pos)
    {
      hide ReadUint, BencodeSpec.ReadString, BencodeSpec.ReadVector, BencodeSpec.ReadDictionary;
    }

    static lemma {:induction false} DictionaryUnfold(s: bytes, p: nat, acc: seq<Entry>, junk: nat -> uint64)
      ensures BencodeSpec.ReadDictionary(s, p, acc, junk)
           == var key := BencodeSpec.ReadString(s, p, junk);
              if key.Halt? then Halt
              else if key.value == [] then Got([], key.pos)
              else if key.pos >= |s| then Got([], key.pos)
              else
                var v := BencodeSpec.ReadValue(s, key.pos, junk);
                if v.Halt? then Halt
                else
                  var acc' := Insert(acc, key.value, v.value);
                  if v.pos >= |s| then Got([], v.pos)
                  else if s[v.pos] == CH_E then Got(acc', v.pos + 1)
                  else BencodeSpec.ReadDictionary(s, v.pos, acc', junk)
    {
      hide BencodeSpec.ReadString, BencodeSpec.ReadValue, Insert;
    }

    // ---------- Encoding ----------

    /** While encoding, the cursor stands at the end of the buffer's contents. */
    ghost predicate Appending()
      reads this, buf
    {
      Valid() && pos == buf.size && buf.buffer.Length > 0
    }

    ghost function Written(): bytes
      requires Valid()
      reads this, buf, buf.buffer
    {
      buf.Contents()
    }

    /** `encode`: what was decoded stays in front, the encoded dictionary follows it. */
    method Encode(entries: seq<Entry>)
      requires Valid() && pos <= buf.buffer.Length && buf.buffer.Length > 0
      modifies this`pos, buf, buf.buffer
      ensures Appending() && (buf.buffer == old(buf.buffer) || fresh(buf.buffer))
      ensures Written() == old(Input()[..pos]) + BencodeSpec.Encode(Dict(entries))
    {
      buf.SetSize(pos);
      assert Written() == old(Input()[..pos]);
      WriteDictionary(entries);
    }

    method Put(b: byte)
      requires Appending()
      modifies this`pos, buf, buf.buffer
      ensures Appending() && (buf.buffer == old(buf.buffer) || fresh(buf.buffer))
      ensures Written() == old(Written()) + [b]
    {
      buf.Add(b);
      pos := pos + 1;
    }

    method InternalWriteString(s: bytes)
      requires Appending()
      modifies this`pos, buf, buf.buffer
      ensures Appending() && (buf.buffer == old(buf.buffer) || fresh(buf.buffer))
      ensures Written() == old(Written()) + s
    {
      for i := 0 to |s|
        invariant Valid() && buf.size == old(buf.size) + i && pos == old(pos) && buf.buffer.Length > 0
        invariant buf.buffer == old(buf.buffer) || fresh(buf.buffer)
        invariant Written() == old(Written()) + s[..i]
      {
        buf.Add(s[i]);
        assert s[..i + 1] == s[..i] + [s[i]];
      }
      pos := pos + |s|;
      assert s[..|s|] == s;
    }

    method WriteString(s: bytes)
      requires Appending()
      modifies this`pos, buf, buf.buffer
      ensures Appending() && (buf.buffer == old(buf.buffer) || fresh(buf.buffer))
      ensures Written() == old(Written()) + EncodeStr(s)
    {
      hide Dec;
      InternalWriteString(Dec(|s|));
      Put(COLON);
      InternalWriteString(s);
    }

    /** `writeInt` and `writeUint`. */
    method WriteInt(n: int)
      requires Appending()
      modifies this`pos, buf, buf.buffer
      ensures Appending() && (buf.buffer == old(buf.buffer) || fresh(buf.buffer))
      ensures Written() == old(Written()) + BencodeSpec.Encode(Int(n))
    {
      hide DecInt;
      Put(CH_I);
      InternalWriteString(DecInt(n));
      Put(CH_E);
    }

    method WriteVector(items: seq<Value>)
      requires Appending()
      modifies this`pos, buf, buf.buffer
      ensures Appending() && (buf.buffer == old(buf.buffer) || fresh(buf.buffer))
      ensures Written() == old(Written()) + BencodeSpec.Encode(List(items))
      decreases items, 1
    {
      hide EncodeAll, BencodeSpec.Encode;
      ListEncoding(items);
      Put(CH_L);
      NoneWritten(items);
      for k := 0 to |items|
        invariant Appending() && (buf.buffer == old(buf.buffer) || fresh(buf.buffer))
        invariant Written() == old(Written()) + [CH_L] + EncodeAll(items[..k])
      {
        WriteType(items[k]);
        AllSnoc(items, k);
      }
      assert items[..|items|] == items;
      Put(CH_E);
    }

    method WriteDictionary(entries: seq<Entry>)
      requires Appending()
      modifies this`pos, buf, buf.buffer
      ensures Appending() && (buf.buffer == old(buf.buffer) || fresh(buf.buffer))
      ensures Written() == old(Written()) + BencodeSpec.Encode(Dict(entries))
      decreases entries, 1
    {
      hide EncodeEntries, EncodeStr, BencodeSpec.Encode;
      DictEncoding(entries);
      Put(CH_D);
      NoEntriesWritten(entries);
      for k := 0 to |entries|
        invariant Appending() && (buf.buffer == old(buf.buffer) || fresh(buf.buffer))
        invariant Written() == old(Written()) + [CH_D] + EncodeEntries(entries[..k])
      {
        WriteString(entries[k].key);
        WriteType(entries[k].value);
        EntriesSnoc(entries, k);
      }
      assert entries[..|entries|] == entries;
      Put(CH_E);
    }

    /** `writeType`: the dispatch on the type of the value. */
    method WriteType(v: Value)
      requires Appending()
      modifies this`pos, buf, buf.buffer
      ensures Appending() && (buf.buffer == old(buf.buffer) || fresh(buf.buffer))
      ensures Written() == old(Written()) + BencodeSpec.Encode(v)
      decreases v, 0
    {
      match v
      case Int(n) => WriteInt(n);
      case Str(s) => WriteString(s);
      case List(items) => WriteVector(items);
      case Dict(entries) => WriteDictionary(entries);
    }

    static lemma {:induction false} ListEncoding(items: seq<Value>)
      ensures BencodeSpec.Encode(List(items)) == [CH_L] + EncodeAll(items) + [CH_E]
    {
    }

    static lemma {:induction false} DictEncoding(entries: seq<Entry>)
      ensures BencodeSpec.Encode(Dict(entries)) == [CH_D] + EncodeEntries(entries) + [CH_E]
    {
    }

    static lemma {:induction false} NoneWritten(vs: seq<Value>)
      ensures EncodeAll(vs[..0]) == []
    {
    }

    static lemma {:induction false} NoEntriesWritten(es: seq<Entry>)
      ensures EncodeEntries(es[..0]) == []
    {
    }

    static lemma {:induction false} AllConcat(vs: seq<Value>, ws: seq<Value>)
      ensures EncodeAll(vs + ws) == EncodeAll(vs) + EncodeAll(ws)
      decreases |vs|
    {
      hide BencodeSpec.Encode;
      if vs == [] {
        assert vs + ws == ws;
      } else {
        assert (vs + ws)[1..] == vs[1..] + ws;
        AllConcat(vs[1..], ws);
      }
    }

    static lemma {:induction false} AllSnoc(vs: seq<Value>, k: nat)
      requires k < |vs|
      ensures EncodeAll(vs[..k + 1]) == EncodeAll(vs[..k]) + BencodeSpec.Encode(vs[k])
    {
      hide BencodeSpec.Encode;
      assert vs[..k + 1] == vs[..k] + [vs[k]];
      AllConcat(vs[..k], [vs[k]]);
      assert [vs[k]][1..] == [];
    }

    static lemma {:induction false} EntriesConcat(es: seq<Entry>, fs: seq<Entry>)
      ensures EncodeEntries(es + fs) == EncodeEntries(es) + EncodeEntries(fs)
      decreases |es|
    {
      hide BencodeSpec.Encode, EncodeStr;
      if es == [] {
        assert es + fs == fs;
      } else {
        assert (es + fs)[1..] == es[1..] + fs;
        EntriesConcat(es[1..], fs);
      }
    }

    static lemma {:induction false} EntriesSnoc(es: seq<Entry>, k: nat)
      requires k < |es|
      ensures EncodeEntries(es[..k + 1])
           == EncodeEntries(es[..k]) + (EncodeStr(es[k].key) + BencodeSpec.Encode(es[k].value))
    {
      hide BencodeSpec.Encode, EncodeStr;
      assert es[..k + 1] == es[..k] + [es[k]];
      EntriesConcat(es[..k], [es[k]]);
      assert [es[k]][1..] == [];
    }

    /** `buffer(from, bufferSize)`: the bytes from `from` to the end of the contents. */
    method Slice(from: nat) returns (bytesFrom: bytes)
      requires Valid() && from <= buf.size
      ensures bytesFrom == Written()[from..]
    {
      bytesFrom := buf.buffer[from..buf.size];
    }
  }
}
