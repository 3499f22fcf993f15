/**
 * The job key of backend/main.py:19-30: the lowercase hex SHA-256 digest of
 * UTF8(id) ++ "_" ++ UTF8(text). SHA-256 itself (FIPS 180-4, section 6.2) is
 * not modelled: it is a parameter that maps bytes to a 32-byte digest.
 */
module JobKey {
  import opened Wrappers
  import opened Utf8

  /** A SHA-256 digest: 32 bytes. */
  type Digest = d: seq<byte> | |d| == 32 witness seq(32, i => 0 as byte)

  /** The byte the handler feeds between the id and the text. */
  const Delimiter: byte := 0x5F

  const HexDigits: string := "0123456789abcdef"

  /** The bytes hashed for a job: the id, the delimiter, the text. */
  function Preimage(id: string, text: string): (r: seq<byte>)
    ensures |id| + 1 + |text| <= |r| <= 4 * (|id| + |text|) + 1
    ensures |Encode(id)| < |r| && r[|Encode(id)|] == Delimiter
  {
    Encode(id) + [Delimiter] + Encode(text)
  }

  function HexValue(c: char): (r: Option<int>)
    ensures r.Some? ==> 0 <= r.value < 16
  {
    if '0' <= c <= '9' then Some(c as int - '0' as int)
    else if 'a' <= c <= 'f' then Some(c as int - 'a' as int + 10)
    else None
  }

  /** `bytes.hexdigest()`: two lowercase digits per byte, high nibble first. */
  function Hex(d: seq<byte>): (r: string)
    ensures |r| == 2 * |d|
    ensures forall i :: 0 <= i < |r| ==> r[i] in HexDigits
  {
    if d == [] then "" else [HexDigits[d[0] / 16], HexDigits[d[0] % 16]] + Hex(d[1..])
  }

  /** Reads lowercase hex back into bytes; the inverse of Hex. */
  function ParseHex(s: string): Option<seq<byte>>
  {
    if s == [] then Some([])
    else if |s| == 1 then None
    else
      var hi, lo, rest := HexValue(s[0]), HexValue(s[1]), ParseHex(s[2..]);
      if hi.Some? && lo.Some? && rest.Some? then Some([hi.value * 16 + lo.value] + rest.value) else None
  }

  lemma HexValueOfDigit(k: int)
    requires 0 <= k < 16
    ensures HexValue(HexDigits[k]) == Some(k)
  {
  }

  lemma ParseHexPair(hi: int, lo: int, rest: string, tail: seq<byte>)
    requires 0 <= hi < 16 && 0 <= lo < 16
    requires ParseHex(rest) == Some(tail)
    ensures ParseHex([HexDigits[hi], HexDigits[lo]] + rest) == Some([hi * 16 + lo] + tail)
  {
    var s := [HexDigits[hi], HexDigits[lo]] + rest;
    assert s[2..] == rest;
    HexValueOfDigit(hi);
    HexValueOfDigit(lo);
  }

  lemma {:induction false} ParseHexOfHex(d: seq<byte>)
    ensures ParseHex(Hex(d)) == Some(d)
  {
    if d != [] {
      ParseHexOfHex(d[1..]);
      ParseHexPair(d[0] / 16, d[0] % 16, Hex(d[1..]), d[1..]);
      assert [d[0] / 16 * 16 + d[0] % 16] + d[1..] == d;
    }
  }

  /** `compute_job_hash(id, text)`: 64 lowercase hex digits that read back as the digest of the preimage. */
  function ComputeJobHash(sha256: seq<byte> -> Digest, id: string, text: string): (key: string)
    ensures |key| == 64
    ensures forall i :: 0 <= i < |key| ==> key[i] in HexDigits
    ensures ParseHex(key) == Some(sha256(Preimage(id, text)))
  {
    var digest := sha256(Preimage(id, text));
    ParseHexOfHex(digest);
    Hex(digest)
  }

  /** Moving an underscore from the end of the id to the start of the text does not change the preimage. */
  lemma PreimageShift(a: string, b: string, c: string)
    ensures Preimage(a + "_" + b, c) == Preimage(a, b + "_" + c)
  {
    var u := [Delimiter];
    assert Encode("_") == u;
    calc {
      Encode(a + "_" + b);
    == { EncodeAppend(a + "_", b); }
      Encode(a + "_") + Encode(b);
    == { EncodeAppend(a, "_"); }
      Encode(a) + u + Encode(b);
    }
    calc {
      Encode(b + "_" + c);
    == { EncodeAppend(b + "_", c); }
      Encode(b + "_") + Encode(c);
    == { EncodeAppend(b, "_"); }
      Encode(b) + u + Encode(c);
    }
    var ea, eb, ec := Encode(a), Encode(b), Encode(c);
    assert (ea + u + eb) + u + ec == ea + u + (eb + u + ec);
  }

  /** The keys of ("a_b", "c") and ("a", "b_c") coincide whatever the digest function is. */
  lemma JobHashCollision(sha256: seq<byte> -> Digest)
    ensures ("a_b", "c") != ("a", "b_c")
    ensures ComputeJobHash(sha256, "a_b", "c") == ComputeJobHash(sha256, "a", "b_c")
  {
    PreimageShift("a", "b", "c");
    assert "a" + "_" + "b" == "a_b";
    assert "b" + "_" + "c" == "b_c";
  }

  /** Without an underscore in either id, equal preimages mean equal ids and equal texts. */
  lemma PreimageInjective(id1: string, text1: string, id2: string, text2: string)
    requires '_' !in id1 && '_' !in id2
    requires Preimage(id1, text1) == Preimage(id2, text2)
    ensures id1 == id2 && text1 == text2
  {
    var e1, e2 := Encode(id1), Encode(id2);
    var p := Preimage(id1, text1);
    UnderscoreByte(id1);
    UnderscoreByte(id2);
    assert p[|e1|] == Delimiter;
    assert p[|e2|] == Delimiter;
    assert |e1| == |e2|;
    assert e1 == p[..|e1|] == e2;
    assert Encode(text1) == p[|e1| + 1..] == Encode(text2);
    EncodeInjective(id1, id2);
    EncodeInjective(text1, text2);
  }
}
