/**
 * Bytes, and the UTF-8 codec the atlas file uses for its names: Python's
 * str.encode('utf-8') and the strict bytes.decode('utf-8'), which refuses
 * truncated sequences, bad continuation bytes, overlong forms, surrogates
 * and code points above U+10FFFF.
 */
module Utf8 {
  import opened Wrappers
  import opened BigEndian
  import opened SeqFacts

  /** The encoding of one code point: one to four bytes. */
  function EncodeChar(c: char): (r: seq<Byte>)
    ensures 1 <= |r| <= 4
    ensures |r| == 1 <==> (c as int) < 0x80
  {
    var n := c as int;
    if n < 0x80 then [n]
    else if n < 0x800 then [0xC0 + n / 64, 0x80 + n % 64]
    else if n < 0x10000 then [0xE0 + n / 4096, 0x80 + (n / 64) % 64, 0x80 + n % 64]
    else [0xF0 + n / 262144, 0x80 + (n / 4096) % 64, 0x80 + (n / 64) % 64, 0x80 + n % 64]
  }

  /** str.encode('utf-8'). */
  function Encode(s: string): seq<Byte>
    decreases |s|, 1
  {
    if s == [] then [] else EncodeFirst(s)
  }

  /** A non-empty string's encoding: its first code point's, then the rest's. */
  function EncodeFirst(s: string): seq<Byte>
    requires s != []
    decreases |s|, 0
  {
    EncodeChar(s[0]) + Encode(s[1..])
  }

  predicate Cont(b: Byte) { 0x80 <= b < 0xC0 }

  /**
   * The code point that starts at `buf[lo]`, reading no further than `hi`,
   * and the number of bytes it takes; None when the bytes are malformed.
   */
  function DecodeCharAt(buf: seq<Byte>, lo: nat, hi: nat): (r: Option<(char, nat)>)
    requires hi <= |buf|
    ensures r.Some? ==> 1 <= r.value.1 && lo + r.value.1 <= hi
  {
    if lo >= hi then None
    else if buf[lo] < 0x80 then Some((buf[lo] as char, 1))
    else if 0xC0 <= buf[lo] < 0xE0 then
      if hi - lo < 2 || !Cont(buf[lo + 1]) then None
      else
        var cp := (buf[lo] as int - 0xC0) * 64 + (buf[lo + 1] as int - 0x80);
        if cp < 0x80 then None else Some((cp as char, 2))
    else if 0xE0 <= buf[lo] < 0xF0 then
      if hi - lo < 3 || !Cont(buf[lo + 1]) || !Cont(buf[lo + 2]) then None
      else
        var cp := (buf[lo] as int - 0xE0) * 4096 + (buf[lo + 1] as int - 0x80) * 64 + (buf[lo + 2] as int - 0x80);
        if cp < 0x800 || (0xD800 <= cp < 0xE000) then None else Some((cp as char, 3))
    else if 0xF0 <= buf[lo] < 0xF8 then
      if hi - lo < 4 || !Cont(buf[lo + 1]) || !Cont(buf[lo + 2]) || !Cont(buf[lo + 3]) then None
      else
        var cp := (buf[lo] as int - 0xF0) * 262144 + (buf[lo + 1] as int - 0x80) * 4096
                  + (buf[lo + 2] as int - 0x80) * 64 + (buf[lo + 3] as int - 0x80);
        if cp < 0x10000 || cp > 0x10FFFF then None else Some((cp as char, 4))
    else None
  }

  /** The bytes `buf[lo..hi]` decoded in place: None is the UnicodeDecodeError. */
  function DecodeAt(buf: seq<Byte>, lo: nat, hi: nat): Option<string>
    requires lo <= hi <= |buf|
    decreases hi - lo, 1
  {
    if lo == hi then Some([]) else DecodeFirst(buf, lo, hi)
  }

  /** A non-empty `buf[lo..hi]`: its first code point, then the rest. */
  function DecodeFirst(buf: seq<Byte>, lo: nat, hi: nat): Option<string>
    requires lo < hi <= |buf|
    decreases hi - lo, 0
  {
    match DecodeCharAt(buf, lo, hi)
    case None => None
    case Some((c, k)) =>
      match DecodeAt(buf, lo + k, hi)
      case None => None
      case Some(rest) => Some([c] + rest)
  }

  /** bytes.decode('utf-8'). */
  function Decode(b: seq<Byte>): Option<string>
  {
    DecodeAt(b, 0, |b|)
  }

  /** Splitting a number into 6-bit groups and putting them back together. */
  lemma Groups(n: int)
    requires 0 <= n
    ensures n == (n / 64) * 64 + n % 64
    ensures n / 64 == (n / 4096) * 64 + (n / 64) % 64
    ensures n / 4096 == (n / 262144) * 64 + (n / 4096) % 64
  {
  }

  /** One encoded code point is read back whole, whatever follows it. */
  lemma DecodeEncodeChar(buf: seq<Byte>, lo: nat, hi: nat, c: char)
    requires hi <= |buf| && At(buf, lo, EncodeChar(c)) && lo + |EncodeChar(c)| <= hi
    ensures DecodeCharAt(buf, lo, hi) == Some((c, |EncodeChar(c)|))
  {
    var n := c as int;
    var e := EncodeChar(c);
    AtIndex(buf, lo, e);
    Groups(n);
    if n < 0x80 {
      assert buf[lo] == e[0];
    } else if n < 0x800 {
      assert buf[lo] == e[0] && buf[lo + 1] == e[1];
      var b0, b1 := e[0] as int, e[1] as int;
      assert b0 - 0xC0 == n / 64 && b1 - 0x80 == n % 64;
    } else if n < 0x10000 {
      assert buf[lo] == e[0] && buf[lo + 1] == e[1] && buf[lo + 2] == e[2];
      var b0, b1, b2 := e[0] as int, e[1] as int, e[2] as int;
      assert b0 - 0xE0 == n / 4096 && b1 - 0x80 == (n / 64) % 64 && b2 - 0x80 == n % 64;
      assert (b0 - 0xE0) * 4096 + (b1 - 0x80) * 64 == (n / 64) * 64;
    } else {
      assert buf[lo] == e[0] && buf[lo + 1] == e[1] && buf[lo + 2] == e[2] && buf[lo + 3] == e[3];
      var b0, b1, b2, b3 := e[0] as int, e[1] as int, e[2] as int, e[3] as int;
      assert b0 - 0xF0 == n / 262144 && b1 - 0x80 == (n / 4096) % 64;
      assert b2 - 0x80 == (n / 64) % 64 && b3 - 0x80 == n % 64;
      assert (b0 - 0xF0) * 262144 + (b1 - 0x80) * 4096 == (n / 4096) * 4096;
      assert (b0 - 0xF0) * 262144 + (b1 - 0x80) * 4096 + (b2 - 0x80) * 64 == (n / 64) * 64;
    }
  }

  /** The encoding of a string, wherever it sits in a buffer, decodes back to the string. */
  lemma {:induction false} DecodeEncodeAt(buf: seq<Byte>, lo: nat, s: string)
    requires At(buf, lo, Encode(s))
    ensures lo + |Encode(s)| <= |buf| && DecodeAt(buf, lo, lo + |Encode(s)|) == Some(s)
    decreases |s|
  {
    if s != [] {
      var e, rest := EncodeChar(s[0]), Encode(s[1..]);
      var hi := lo + |Encode(s)|;
      assert Encode(s) == EncodeFirst(s) == e + rest;
      AtSplit(buf, lo, e, rest);
      DecodeEncodeAt(buf, lo + |e|, s[1..]);
      DecodeEncodeChar(buf, lo, hi, s[0]);
      assert DecodeAt(buf, lo, hi) == DecodeFirst(buf, lo, hi);
      assert [s[0]] + s[1..] == s;
    } else {
      AtIndex(buf, lo, Encode(s));
    }
  }

  /** Decoding undoes encoding, for every string. */
  lemma DecodeEncode(s: string)
    ensures Decode(Encode(s)) == Some(s)
  {
    AtSelf(Encode(s));
    DecodeEncodeAt(Encode(s), 0, s);
  }

  /** Every code point takes at least one byte; ASCII takes exactly one. */
  lemma {:induction false} EncodeLength(s: string)
    ensures |Encode(s)| >= |s|
    ensures (forall i :: 0 <= i < |s| ==> (s[i] as int) < 0x80) <==> |Encode(s)| == |s|
  {
    if s != [] {
      EncodeLength(s[1..]);
      assert forall i :: 1 <= i < |s| ==> s[1..][i - 1] == s[i];
    }
  }

  /** A 6-bit group and a quotient put back together come apart again. */
  lemma Ungroup(q: int, r: int)
    requires 0 <= q && 0 <= r < 64
    ensures (q * 64 + r) / 64 == q && (q * 64 + r) % 64 == r
  {
  }

  /** A two-byte code point, put back together from its groups, encodes to them. */
  lemma EncodeTwo(c: char, b0: int, b1: int)
    requires 0 <= b0 < 32 && 0 <= b1 < 64 && c as int == b0 * 64 + b1 && c as int >= 0x80
    ensures EncodeChar(c) == [0xC0 + b0, 0x80 + b1]
  {
    Ungroup(b0, b1);
  }

  /** Likewise for three bytes. */
  lemma EncodeThree(c: char, b0: int, b1: int, b2: int)
    requires 0 <= b0 < 16 && 0 <= b1 < 64 && 0 <= b2 < 64
    requires c as int == (b0 * 64 + b1) * 64 + b2 && 0x800 <= c as int
    ensures EncodeChar(c) == [0xE0 + b0, 0x80 + b1, 0x80 + b2]
  {
    var n := c as int;
    Ungroup(b0 * 64 + b1, b2);
    Ungroup(b0, b1);
    assert n / 4096 == (n / 64) / 64;
  }

  /** Likewise for four bytes. */
  lemma EncodeFour(c: char, b0: int, b1: int, b2: int, b3: int)
    requires 0 <= b0 < 8 && 0 <= b1 < 64 && 0 <= b2 < 64 && 0 <= b3 < 64
    requires c as int == ((b0 * 64 + b1) * 64 + b2) * 64 + b3 && 0x10000 <= c as int
    ensures EncodeChar(c) == [0xF0 + b0, 0x80 + b1, 0x80 + b2, 0x80 + b3]
  {
    var n := c as int;
    Ungroup((b0 * 64 + b1) * 64 + b2, b3);
    Ungroup(b0 * 64 + b1, b2);
    Ungroup(b0, b1);
    assert n / 4096 == (n / 64) / 64;
    assert n / 262144 == (n / 4096) / 64;
  }

  /** A decoded code point encodes back to exactly the bytes it was read from. */
  lemma EncodeDecodeChar(buf: seq<Byte>, lo: nat, hi: nat)
    requires hi <= |buf| && DecodeCharAt(buf, lo, hi).Some?
    ensures var (c, k) := DecodeCharAt(buf, lo, hi).value; At(buf, lo, EncodeChar(c)) && |EncodeChar(c)| == k
  {
    var (c, k) := DecodeCharAt(buf, lo, hi).value;
    AtIndex(buf, lo, EncodeChar(c));
    if buf[lo] < 0x80 {
      assert EncodeChar(c) == [buf[lo]];
    } else if buf[lo] < 0xE0 {
      EncodeTwo(c, buf[lo] as int - 0xC0, buf[lo + 1] as int - 0x80);
    } else if buf[lo] < 0xF0 {
      EncodeThree(c, buf[lo] as int - 0xE0, buf[lo + 1] as int - 0x80, buf[lo + 2] as int - 0x80);
    } else {
      EncodeFour(c, buf[lo] as int - 0xF0, buf[lo + 1] as int - 0x80, buf[lo + 2] as int - 0x80, buf[lo + 3] as int - 0x80);
    }
  }

  /** Whatever decodes in place is, in place, the encoding of what it decodes to. */
  lemma {:induction false} EncodeDecodeAt(buf: seq<Byte>, lo: nat, hi: nat)
    requires lo <= hi <= |buf| && DecodeAt(buf, lo, hi).Some?
    ensures var s := DecodeAt(buf, lo, hi).value; At(buf, lo, Encode(s)) && lo + |Encode(s)| == hi
    decreases hi - lo
  {
    if lo < hi {
      var (c, k) := DecodeCharAt(buf, lo, hi).value;
      EncodeDecodeChar(buf, lo, hi);
      EncodeDecodeAt(buf, lo + k, hi);
      var s := DecodeAt(buf, lo, hi).value;
      assert s[0] == c && s[1..] == DecodeAt(buf, lo + k, hi).value;
      assert Encode(s) == EncodeChar(c) + Encode(s[1..]);
      AtJoin(buf, lo, EncodeChar(c), Encode(s[1..]));
    }
  }

  /** Whatever decodes is the encoding of what it decodes to: the codec is a bijection on valid input. */
  lemma EncodeDecode(b: seq<Byte>)
    requires Decode(b).Some?
    ensures Encode(Decode(b).value) == b
  {
    var e := Encode(Decode(b).value);
    EncodeDecodeAt(b, 0, |b|);
    AtSlice(b, 0, e);
    assert b[0..|b|] == b;
  }
}
