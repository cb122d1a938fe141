/**
 What the functions of BencodeSpec mean for the text of a file: the order of keys, the written form
 of values, the number a token stands for, and what becomes of text that is cut off or malformed.
 */
module BencodeText {
  import opened Bytes
  import opened Wrappers
  import opened BencodeSpec
  import opened BencodeRoundTrip

  // ---------- The order of keys ----------

  /** `a` and `b` first differ at position `k`, where `a` has the smaller byte. */
  predicate SmallerAt(a: bytes, b: bytes, k: nat) {
    k < |a| && k < |b| && a[..k] == b[..k] && a[k] < b[k]
  }

  /** The order of maps is that of byte strings: a proper prefix comes first, otherwise the smaller byte at the first difference. */
  lemma {:induction false} LessIff(a: bytes, b: bytes)
    ensures Less(a, b) <==> a < b || exists k: nat :: SmallerAt(a, b, k)
    decreases |a|
  {
    if a != [] && b != [] && a[0] == b[0] {
      LessIff(a[1..], b[1..]);
      PrefixTail(a, b);
      if k: nat :| SmallerAt(a[1..], b[1..], k) {
        SmallerLater(a, b, k);
        assert SmallerAt(a, b, k + 1);
      }
      if k: nat :| SmallerAt(a, b, k) {
        SmallerLater(a, b, k - 1);
        assert SmallerAt(a[1..], b[1..], k - 1);
      }
    } else if a != [] && b != [] {
      assert a[..0] == b[..0];
      if a[0] < b[0] {
        assert SmallerAt(a, b, 0);
      }
      forall k: nat | SmallerAt(a, b, k)
        ensures k == 0
      {
        EqualBefore(a, b, k);
      }
    }
  }

  lemma {:induction false} EqualBefore(a: bytes, b: bytes, k: nat)
    requires SmallerAt(a, b, k)
    ensures k > 0 ==> a[0] == b[0]
  {
    if k > 0 {
      assert a[..k][0] == a[0] && b[..k][0] == b[0];
    }
  }

  lemma {:induction false} SmallerLater(a: bytes, b: bytes, k: nat)
    requires a != [] && b != [] && a[0] == b[0]
    ensures SmallerAt(a[1..], b[1..], k) <==> SmallerAt(a, b, k + 1)
  {
    if k + 1 < |a| && k + 1 < |b| {
      assert a[..k + 1] == [a[0]] + a[1..][..k] && b[..k + 1] == [b[0]] + b[1..][..k];
      assert a[1..][..k] == a[..k + 1][1..] && b[1..][..k] == b[..k + 1][1..];
    }
  }

  lemma {:induction false} PrefixTail(a: bytes, b: bytes)
    requires a != [] && b != [] && a[0] == b[0]
    ensures a < b <==> a[1..] < b[1..]
  {
    if |a| <= |b| {
      assert a == [a[0]] + a[1..] && b[..|a|] == [b[0]] + b[1..][..|a| - 1];
      assert b[1..][..|a| - 1] == b[..|a|][1..];
    }
  }

  // ---------- The written form ----------

  /** The number written by a string of decimal digits. */
  function Decimal(digits: bytes): int {
    if digits == [] then 0 else 10 * Decimal(digits[..|digits| - 1]) + digits[|digits| - 1] - '0' as int
  }

  predicate Digits(x: bytes) {
    forall k :: 0 <= k < |x| ==> '0' as int <= x[k] <= '9' as int
  }

  /** Numbers are written in decimal, most significant digit first, without leading zeros. */
  lemma {:induction false} DecIsDecimal(n: nat)
    ensures Digits(Dec(n)) && Decimal(Dec(n)) == n
    ensures n > 0 ==> Dec(n)[0] != '0' as int
    ensures n == 0 ==> Dec(n) == Ascii("0")
  {
    if n < 10 {
      assert Dec(n)[..0] == [];
    } else {
      DecIsDecimal(n / 10);
      assert Dec(n)[..|Dec(n)| - 1] == Dec(n / 10);
    }
  }

  lemma {:induction false} Letters()
    ensures Ascii("i") == [CH_I] && Ascii("l") == [CH_L] && Ascii("d") == [CH_D] && Ascii("e") == [CH_E]
    ensures Ascii(":") == [COLON] && Ascii("-") == [MINUS] && Ascii("+") == [PLUS]
  {
  }

  /** The text of a value, in the letters of the format. */
  lemma {:induction false} TextForm(v: Value)
    ensures match v
            case Int(n) => Encode(v) == Ascii("i") + (if n < 0 then Ascii("-") + Dec(-n) else Dec(n)) + Ascii("e")
            case Str(x) => Encode(v) == Dec(|x|) + Ascii(":") + x
            case List(items) => Encode(v) == Ascii("l") + EncodeAll(items) + Ascii("e")
            case Dict(es) => Encode(v) == Ascii("d") + EncodeEntries(es) + Ascii("e")
  {
    Letters();
    hide Dec, EncodeAll, EncodeEntries, Ascii;
  }

  lemma {:induction false} TwoParts(v: Value, w: Value, e: Entry, f: Entry)
    ensures EncodeAll([v, w]) == Encode(v) + Encode(w)
    ensures EncodeEntries([e, f]) == EncodeStr(e.key) + Encode(e.value) + (EncodeStr(f.key) + Encode(f.value))
  {
    hide Encode, EncodeStr;
    assert [v, w][1..] == [w] && [w][1..] == [];
    assert EncodeAll([w]) == Encode(w) + [] == Encode(w);
    assert [e, f][1..] == [f] && [f][1..] == [];
    assert EncodeEntries([f]) == EncodeStr(f.key) + Encode(f.value) + [] == EncodeStr(f.key) + Encode(f.value);
  }

  lemma {:induction false} ExampleParts()
    ensures Encode(Str(Ascii("c"))) == Ascii("1:c") && Encode(Int(-120)) == Ascii("i-120e") && Encode(Int(7)) == Ascii("i7e")
    ensures EncodeStr(Ascii("ab")) == Ascii("2:ab") && EncodeStr(Ascii("d")) == Ascii("1:d")
  {
    SmallNumbers();
    hide Dec, DecInt;
  }

  lemma {:induction false} SmallNumbers()
    ensures DecInt(7) == Ascii("7") && Dec(1) == Ascii("1") && Dec(2) == Ascii("2") && DecInt(-120) == Ascii("-120")
  {
    assert Dec(120) == Dec(12) + [CH_0] && Dec(12) == Dec(1) + [CH_0 + 2];
    assert Dec(120) == Ascii("120");
  }

  /** One of everything. */
  lemma {:induction false} TextExample()
    ensures Encode(Dict([Entry(Ascii("ab"), List([Str(Ascii("c")), Int(-120)])), Entry(Ascii("d"), Int(7))]))
         == Ascii("d2:abl1:ci-120ee1:di7ee")
  {
    hide *;
    ExampleParts();
    ExampleList();
    var e, f := Entry(Ascii("ab"), List([Str(Ascii("c")), Int(-120)])), Entry(Ascii("d"), Int(7));
    TwoParts(Int(7), Int(7), e, f);
    TextForm(Dict([e, f]));
    JoinText("2:ab", "l1:ci-120ee", "1:d", "i7e");
    assert "d" + "2:ab" + "l1:ci-120ee" + "1:d" + "i7e" + "e" == "d2:abl1:ci-120ee1:di7ee";
  }

  lemma {:induction false} ExampleList()
    ensures Encode(List([Str(Ascii("c")), Int(-120)])) == Ascii("l1:ci-120ee")
  {
    ExampleParts();
    var v, w, e := Str(Ascii("c")), Int(-120), Entry([], Int(0));
    TwoParts(v, w, e, e);
    TextForm(List([v, w]));
    hide Encode, EncodeAll;
  }

  lemma {:induction false} JoinText(a: string, b: string, c: string, d: string)
    ensures Ascii("d") + (Ascii(a) + Ascii(b) + (Ascii(c) + Ascii(d))) + Ascii("e") == Ascii("d" + a + b + c + d + "e")
  {
  }

  // ---------- The number a token stands for ----------

  lemma {:induction false} DecimalNatural(x: bytes)
    requires Digits(x)
    ensures Decimal(x) >= 0
  {
    if x == [] {
    } else {
      DecimalNatural(x[..|x| - 1]);
    }
  }

  lemma {:induction false} DigitsOf(x: bytes)
    requires Digits(x)
    ensures DigitsFrom(x, 0) == Decimal(x)
  {
    if x == [] {
    } else {
      var front, last := x[..|x| - 1], x[|x| - 1..];
      DigitsOf(front);
      assert x == front + last && last[1..] == [];
      DigitsSplit(front, last, 0);
    }
  }

  lemma {:induction false} SpacesSkipped(spaces: bytes, rest: bytes)
    requires forall k :: 0 <= k < |spaces| ==> White(spaces[k])
    requires rest == [] || !White(rest[0])
    ensures SkipSpace(spaces + rest) == rest
    decreases |spaces|
  {
    if spaces == [] {
      assert spaces + rest == rest;
    } else {
      assert (spaces + rest)[1..] == spaces[1..] + rest;
      SpacesSkipped(spaces[1..], rest);
    }
  }

  /** Blank, tab, line feed, vertical tab, form feed and carriage return. */
  predicate White(b: byte) {
    b in [0x20, 0x09, 0x0a, 0x0b, 0x0c, 0x0d]
  }

  predicate Digit(b: byte) {
    '0' as int <= b <= '9' as int
  }

  /** The largest value for a number that does not fit; with a minus sign, the number modulo 2^64. */
  function Fitted(minus: bool, n: nat): nat {
    if n >= 0x1_0000_0000_0000_0000 then 0xffff_ffff_ffff_ffff
    else if minus && n > 0 then 0x1_0000_0000_0000_0000 - n
    else n
  }

  /**
   The number of every token: white space, perhaps a sign, digits, and anything else behind them.
   Without a digit it is zero.
   */
  lemma {:induction false} TokenNumber(spaces: bytes, sign: bytes, digits: bytes, rest: bytes)
    requires forall k :: 0 <= k < |spaces| ==> White(spaces[k])
    requires sign == [] || sign == Ascii("-") || sign == Ascii("+")
    requires Digits(digits) && (rest == [] || !Digit(rest[0]))
    requires sign == [] && digits == [] ==> rest != [] && !White(rest[0]) && rest[0] != '-' as int && rest[0] != '+' as int
    ensures Decimal(digits) >= 0
    ensures ParseUint(spaces + sign + digits + rest) == Some(Fitted(sign == Ascii("-"), Decimal(digits)))
  {
    Letters();
    hide SkipSpace, Decimal, DigitsFrom, Ascii;
    DecimalNatural(digits);
    var number := digits + rest;
    assert spaces + sign + digits + rest == spaces + (sign + number);
    SpacesSkipped(spaces, sign + number);
    DigitsOf(digits);
    DigitsSplit(digits, rest, 0);
    NoDigit(rest, Decimal(digits));
    if sign == [] {
      assert sign + number == number;
    } else {
      assert (sign + number)[1..] == number;
    }
  }

  lemma {:induction false} NoDigit(rest: bytes, acc: nat)
    requires rest == [] || !Digit(rest[0])
    ensures DigitsFrom(rest, acc) == acc
  {
  }

  /** A token of white space alone, or none at all, gives no number. */
  lemma {:induction false} BlankToken(spaces: bytes)
    requires forall k :: 0 <= k < |spaces| ==> White(spaces[k])
    ensures ParseUint(spaces) == None
  {
    SpacesSkipped(spaces, []);
    assert spaces + [] == spaces;
  }

  /** Reading a number: up to the first delimiter, or a stop if there is none; without a number the old value stays. */
  lemma {:induction false} ReadUintIs(s: bytes, pos: nat, delim: byte, junk: nat -> uint64)
    ensures var r := ReadUint(s, pos, delim, junk);
            match r
            case Halt => forall k :: pos <= k < |s| ==> s[k] != delim
            case Got(value, p) =>
              && pos < p <= |s| && s[p - 1] == delim && (forall k :: pos <= k < p - 1 ==> s[k] != delim)
              && match ParseUint(s[pos..p - 1])
                 case Some(n) => value == n
                 case None => value == junk(pos)
  {
    hide Find, ParseUint;
  }

  // ---------- Text that is cut off or malformed ----------

  /** A string whose length reaches past the buffer is empty, and reading goes on behind the colon. */
  lemma {:induction false} LongString(s: bytes, pos: nat, n: nat, junk: nat -> uint64)
    requires n < TWO64 && At(s, pos, Dec(n) + Ascii(":")) && pos + |Dec(n)| + 1 + n > |s|
    ensures ReadString(s, pos, junk) == Got([], pos + |Dec(n)| + 1)
  {
    hide Dec;
    assert Ascii(":") == [COLON];
    ReadUintEncoded(s, pos, n, COLON, junk);
  }

  /** A file that does not start with a `d` gives an empty map. */
  lemma {:induction false} NoDictionary(data: bytes, junk: nat -> uint64)
    requires data != [] && data[0] != 'd' as int
    ensures Decode(data, junk) == Got([], 0)
  {
  }

  /** The last of these values is not an empty string, which would stop the decoder at the end of the buffer. */
  predicate EndsWell(vs: seq<Value>) {
    vs != [] ==> vs[|vs| - 1] != Str([])
  }

  /** A list that the end of the buffer cuts off before its `e` is read as if it were complete. */
  lemma {:induction false} CutList(s: bytes, pos: nat, vs: seq<Value>, junk: nat -> uint64)
    requires forall i :: 0 <= i < |vs| ==> InWidth(vs[i]) && NoEmpty(vs[i])
    requires At(s, pos, EncodeAll(vs)) && pos + |EncodeAll(vs)| == |s| && EndsWell(vs)
    ensures ReadVector(s, pos, junk) == Got(NormAll(vs), |s|)
    decreases vs
  {
    hide At, Encode, ReadVector, ReadValue, InWidth, NoEmpty, Norm;
    if vs == [] {
      VectorAtEnd(s, junk);
    } else {
      var q := pos + |Encode(vs[0])|;
      AtSplit(s, pos, Encode(vs[0]), EncodeAll(vs[1..]));
      AtStart(s, pos, Encode(vs[0]));
      EncodeStart(vs[0]);
      if vs[1..] != [] {
        SomeText(vs[1..]);
      }
      ReadEncoded(s, pos, vs[0], junk);
      VectorStep(s, pos, Norm(vs[0]), q, junk);
      CutList(s, q, vs[1..], junk);
    }
  }

  lemma {:induction false} SomeText(vs: seq<Value>)
    requires vs != []
    ensures |EncodeAll(vs)| > 0
  {
  }

  lemma {:induction false} VectorAtEnd(s: bytes, junk: nat -> uint64)
    ensures ReadVector(s, |s|, junk) == Got([], |s|)
  {
  }

  /** A dictionary that the end of the buffer cuts off behind a value loses all its entries. */
  lemma {:induction false} CutDictionary(s: bytes, pos: nat, es: seq<Entry>, acc: seq<Entry>, junk: nat -> uint64)
    requires es != [] && es[|es| - 1].value != Str([])
    requires forall i :: 0 <= i < |es| ==> es[i].key != [] && |es[i].key| < TWO64 && InWidth(es[i].value) && NoEmpty(es[i].value)
    requires At(s, pos, EncodeEntries(es)) && pos + |EncodeEntries(es)| == |s|
    ensures ReadDictionary(s, pos, acc, junk) == Got([], |s|)
    decreases es
  {
    hide At, Encode, EncodeStr, EncodeEntries, ReadDictionary, ReadValue, ReadString, InWidth, NoEmpty, Norm, Insert;
    FirstEntry(es);
    var key, value, tail := EncodeStr(es[0].key), Encode(es[0].value), EncodeEntries(es[1..]);
    AtSplit(s, pos, key + value, tail);
    AtSplit(s, pos, key, value);
    var p, q := pos + |key|, pos + |key| + |value|;
    AtStart(s, p, value);
    ReadStringEncoded(s, pos, es[0].key, junk);
    if es[1..] == [] {
      NoEntries();
      ReadEncoded(s, p, es[0].value, junk);
      DictionaryAtEnd(s, pos, acc, es[0].key, p, Norm(es[0].value), junk);
    } else {
      EntryText(es[1..]);
      AtStart(s, q, tail);
      ReadEncoded(s, p, es[0].value, junk);
      DictionaryStep(s, pos, acc, es[0].key, p, Norm(es[0].value), q, junk);
      CutDictionary(s, q, es[1..], Insert(acc, es[0].key, Norm(es[0].value)), junk);
    }
  }

  lemma {:induction false} EntryText(es: seq<Entry>)
    requires es != []
    ensures EncodeEntries(es) != [] && EncodeEntries(es)[0] != CH_E
  {
    hide Encode;
    KeyStart(es[0].key);
  }

  lemma {:induction false} DictionaryAtEnd(s: bytes, pos: nat, acc: seq<Entry>, key: bytes, p: nat, v: Value, junk: nat -> uint64)
    requires ReadString(s, pos, junk) == Got(key, p) && key != []
    requires p < |s| && ReadValue(s, p, junk) == Got(v, |s|)
    ensures ReadDictionary(s, pos, acc, junk) == Got([], |s|)
  {
    hide ReadString, ReadValue, Insert;
  }

  /** So does one cut off behind a key. */
  lemma {:induction false} CutAfterKey(s: bytes, pos: nat, key: bytes, acc: seq<Entry>, junk: nat -> uint64)
    requires key != [] && |key| < TWO64 && At(s, pos, EncodeStr(key)) && pos + |EncodeStr(key)| == |s|
    ensures ReadDictionary(s, pos, acc, junk) == Got([], |s|)
  {
    ReadStringEncoded(s, pos, key, junk);
    hide ReadString, ReadValue, Insert;
  }

  /** A file cut off behind any of its top-level values gives an empty map. */
  lemma {:induction false} CutFile(es: seq<Entry>, junk: nat -> uint64)
    requires InWidth(Dict(es)) && NoEmpty(Dict(es)) && es[|es| - 1].value != Str([])
    ensures Decode(Ascii("d") + EncodeEntries(es), junk) == Got([], |EncodeEntries(es)|)
  {
    var body := EncodeEntries(es);
    var data := Ascii("d") + body;
    assert data[0] == CH_D && data[1..] == body;
    AtWhole(body);
    hide EncodeEntries, ReadDictionary, At;
    CutDictionary(body, 0, es, [], junk);
  }
}
