/**
 * The UTF-8 encoding of RFC 3629, as Python's `str.encode()` applies it to the
 * job id and the text before they are hashed (backend/main.py:27-29).
 * Characters are Unicode scalar values, so every string has an encoding.
 */
module Utf8 {

  type byte = b: int | 0 <= b < 256

  /** The number of bytes a sequence announces by its first byte. */
  function SequenceLength(lead: byte): nat
  {
    if lead < 0x80 then 1
    else if lead < 0xE0 then 2
    else if lead < 0xF0 then 3
    else 4
  }

  /** The encoding of one scalar value: one byte below 0x80, otherwise a lead byte and continuation bytes. */
  function EncodeChar(c: char): (r: seq<byte>)
    ensures 1 <= |r| <= 4
    ensures |r| == SequenceLength(r[0])
    ensures |r| == 1 <==> c as int < 0x80
    ensures |r| > 1 ==> forall i :: 0 <= i < |r| ==> 0x80 <= r[i]
    ensures forall i :: 1 <= i < |r| ==> r[i] < 0xC0
  {
    var n := c as int;
    if n < 0x80 then [n]
    else if n < 0x800 then [0xC0 + n / 64, 0x80 + n % 64]
    else if n < 0x10000 then [0xE0 + n / 4096, 0x80 + n / 64 % 64, 0x80 + n % 64]
    else [0xF0 + n / 0x40000, 0x80 + n / 4096 % 64, 0x80 + n / 64 % 64, 0x80 + n % 64]
  }

  /**
   * `str.encode()`: the characters' encodings one after another. Every character takes one
   * to four bytes, and a string takes one byte per character exactly when it is all ASCII.
   */
  function Encode(s: string): (r: seq<byte>)
    ensures |s| <= |r| <= 4 * |s|
    ensures |r| == |s| <==> forall k :: 0 <= k < |s| ==> s[k] as int < 0x80
  {
    if s == [] then [] else EncodeChar(s[0]) + Encode(s[1..])
  }

  /** The scalar value a well-formed one-character sequence stands for (the inverse of EncodeChar). */
  function DecodeChar(e: seq<byte>): int
    requires 1 <= |e| <= 4
  {
    if |e| == 1 then e[0] as int
    else if |e| == 2 then (e[0] as int - 0xC0) * 64 + (e[1] as int - 0x80)
    else if |e| == 3 then (e[0] as int - 0xE0) * 4096 + (e[1] as int - 0x80) * 64 + (e[2] as int - 0x80)
    else (e[0] as int - 0xF0) * 0x40000 + (e[1] as int - 0x80) * 4096 + (e[2] as int - 0x80) * 64 + (e[3] as int - 0x80)
  }

  lemma DecodeEncodeChar(c: char)
    ensures DecodeChar(EncodeChar(c)) == c as int
  {
    var n := c as int;
    if n < 0x80 {
    } else if n < 0x800 {
      DecodeTwo(n);
    } else if n < 0x10000 {
      DecodeThree(n);
    } else {
      DecodeFour(n);
    }
  }

  lemma DecodeTwo(n: int)
    requires 0x80 <= n < 0x800
    ensures DecodeChar([0xC0 + n / 64, 0x80 + n % 64]) == n
  {
    Split64(n);
  }

  lemma DecodeThree(n: int)
    requires 0x800 <= n < 0x10000
    ensures DecodeChar([0xE0 + n / 4096, 0x80 + n / 64 % 64, 0x80 + n % 64]) == n
  {
    Split64(n);
    Split64(n / 64);
    var a, b, d := n / 4096, n / 64 % 64, n % 64;
    assert n / 64 == a * 64 + b;
    assert n == (a * 64 + b) * 64 + d;
  }

  lemma DecodeFour(n: int)
    requires 0x10000 <= n < 0x110000
    ensures DecodeChar([0xF0 + n / 0x40000, 0x80 + n / 4096 % 64, 0x80 + n / 64 % 64, 0x80 + n % 64]) == n
  {
    Split64(n);
    Split64(n / 64);
    Split64(n / 4096);
    var a, b, c, d := n / 0x40000, n / 4096 % 64, n / 64 % 64, n % 64;
    assert n / 4096 == a * 64 + b;
    assert n / 64 == (a * 64 + b) * 64 + c;
    assert n == ((a * 64 + b) * 64 + c) * 64 + d;
  }

  /** Dividing by 64 twice is dividing by 4096, and a third time by 0x40000. */
  lemma Split64(n: nat)
    ensures n == n / 64 * 64 + n % 64
    ensures n / 64 / 64 == n / 4096
    ensures n / 4096 / 64 == n / 0x40000
  {
  }

  /** Distinct scalar values have distinct encodings. */
  lemma EncodeCharInjective(c: char, d: char)
    requires EncodeChar(c) == EncodeChar(d)
    ensures c == d
  {
    DecodeEncodeChar(c);
    DecodeEncodeChar(d);
  }

  /** Encoding distributes over concatenation: `(s + t).encode() == s.encode() + t.encode()`. */
  lemma {:induction false} EncodeAppend(s: string, t: string)
    ensures Encode(s + t) == Encode(s) + Encode(t)
  {
    if s == [] {
      assert s + t == t;
    } else {
      assert (s + t)[0] == s[0];
      assert (s + t)[1..] == s[1..] + t;
      EncodeAppend(s[1..], t);
    }
  }

  /** Only the empty string has the empty encoding. */
  lemma EncodeEmpty(s: string)
    ensures Encode(s) == [] <==> s == []
  {
    if s != [] {
      assert |Encode(s)| >= |EncodeChar(s[0])|;
    }
  }

  /** The encoding is injective: different strings never share bytes. */
  lemma {:induction false} EncodeInjective(s: string, t: string)
    requires Encode(s) == Encode(t)
    ensures s == t
  {
    EncodeEmpty(s);
    EncodeEmpty(t);
    if s != [] {
      var e, f := EncodeChar(s[0]), EncodeChar(t[0]);
      var whole := Encode(s);
      assert whole == e + Encode(s[1..]);
      assert whole == f + Encode(t[1..]);
      assert e[0] == whole[0] == f[0];
      assert |e| == |f|;
      assert e == whole[..|e|] == f;
      EncodeCharInjective(s[0], t[0]);
      assert Encode(s[1..]) == whole[|e|..] == Encode(t[1..]);
      EncodeInjective(s[1..], t[1..]);
    }
  }

  /** The byte 0x5F occurs in an encoding exactly where the string has an underscore. */
  lemma {:induction false} UnderscoreByte(s: string)
    ensures 0x5F in Encode(s) <==> '_' in s
  {
    if s != [] {
      var e := EncodeChar(s[0]);
      assert Encode(s) == e + Encode(s[1..]);
      assert 0x5F in e <==> s[0] == '_';
      UnderscoreByte(s[1..]);
      assert '_' in s <==> s[0] == '_' || '_' in s[1..] by {
        assert s == [s[0]] + s[1..];
      }
    }
  }
}
