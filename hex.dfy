/** Base-16 credential text and its byte form.

    A credential (device address, session key, application key or EUI) is
    written as ASCII hex digits, two per byte, the high nibble first, in
    either letter case (the base-16 alphabet of section 8 of RFC 4648,
    read case-insensitively). This module is the pure specification that the
    decoding loops of ParseKeys are proved against.
 */
module Hex {

  /** The value range of a C `uint8_t`. */
  type Byte = x: int | 0 <= x < 256

  predicate IsHexDigit(c: char) {
    '0' <= c <= '9' || 'A' <= c <= 'F' || 'a' <= c <= 'f'
  }

  /** The value `strtoul(…, 16)` gives a single hex digit. */
  function HexVal(c: char): (v: nat)
    requires IsHexDigit(c)
    ensures v < 16
  {
    if '0' <= c <= '9' then c as int - '0' as int
    else if 'A' <= c <= 'F' then c as int - 'A' as int + 10
    else c as int - 'a' as int + 10
  }

  /** The upper-case digit of a nibble: the inverse of HexVal. */
  function UpperDigit(v: nat): (c: char)
    requires v < 16
    ensures IsHexDigit(c) && HexVal(c) == v
    ensures !('a' <= c <= 'f')
  {
    if v < 10 then ('0' as int + v) as char else ('A' as int + v - 10) as char
  }

  /** ASCII upper-casing of one character; everything but `a`-`z` is kept. */
  function ToUpper(c: char): char {
    if 'a' <= c <= 'z' then (c as int - 'a' as int + 'A' as int) as char else c
  }

  function ToLower(c: char): char {
    if 'A' <= c <= 'Z' then (c as int - 'A' as int + 'a' as int) as char else c
  }

  function UpperString(s: string): (u: string)
    ensures |u| == |s|
    ensures forall i :: 0 <= i < |s| ==> u[i] == ToUpper(s[i])
  {
    seq(|s|, i requires 0 <= i < |s| => ToUpper(s[i]))
  }

  function LowerString(s: string): (u: string)
    ensures |u| == |s|
    ensures forall i :: 0 <= i < |s| ==> u[i] == ToLower(s[i])
  {
    seq(|s|, i requires 0 <= i < |s| => ToLower(s[i]))
  }

  /** Two digits that differ only in letter case have the same value, and
      digits of the same value differ at most in letter case. */
  lemma HexValCaseInsensitive(c: char, d: char)
    requires IsHexDigit(c) && IsHexDigit(d)
    ensures IsHexDigit(ToUpper(c)) && HexVal(ToUpper(c)) == HexVal(c)
    ensures IsHexDigit(ToLower(c)) && HexVal(ToLower(c)) == HexVal(c)
    ensures HexVal(c) == HexVal(d) <==> ToUpper(c) == ToUpper(d)
  {
  }

  /** The value `strtoul` returns for the five-character buffer
      `{'0', 'x', hi, lo, '\0'}` built at each step of the decoding loops. */
  function PairVal(hi: char, lo: char): (v: nat)
    requires IsHexDigit(hi) && IsHexDigit(lo)
    ensures v < 256
  {
    16 * HexVal(hi) + HexVal(lo)
  }

  /** C's conversion of an unsigned long to `uint8_t`: the value that agrees
      with `x` modulo 2^8, which is `x` itself when `x` fits. */
  function ToUint8(x: nat): (b: Byte)
    ensures (x - b) % 256 == 0
    ensures x < 256 ==> b == x
  {
    x % 256
  }

  /** The byte that lands in the `uint8_t` array: the `strtoul` result after
      the narrowing assignment. The narrowing loses nothing. */
  function StoredByte(hi: char, lo: char): (b: Byte)
    requires IsHexDigit(hi) && IsHexDigit(lo)
    ensures b == 16 * HexVal(hi) + HexVal(lo)
  {
    ToUint8(PairVal(hi, lo))
  }

  /** The first `2n` characters of `s` exist and are hex digits: what the
      decoding loops read of a credential meant for `n` bytes. */
  predicate IsHexCredential(s: string, n: nat) {
    2 * n <= |s| && forall i :: 0 <= i < 2 * n ==> IsHexDigit(s[i])
  }

  /** The bytes the decoding loop has stored after its first `n` rounds. */
  function Decode(s: string, n: nat): (r: seq<Byte>)
    requires IsHexCredential(s, n)
    ensures |r| == n
    ensures forall i :: 0 <= i < n ==> r[i] == 16 * HexVal(s[2 * i]) + HexVal(s[2 * i + 1])
  {
    if n == 0 then [] else Decode(s, n - 1) + [StoredByte(s[2 * (n - 1)], s[2 * (n - 1) + 1])]
  }

  /** Writes bytes as two upper-case digits each, high nibble first. */
  function Encode(bytes: seq<Byte>): (s: string)
    ensures |s| == 2 * |bytes|
    ensures IsHexCredential(s, |bytes|)
    ensures forall i :: 0 <= i < |bytes| ==> HexVal(s[2 * i]) == bytes[i] / 16 && HexVal(s[2 * i + 1]) == bytes[i] % 16
    ensures forall i :: 0 <= i < |s| ==> !('a' <= s[i] <= 'f')
  {
    if bytes == [] then []
    else
      var last := bytes[|bytes| - 1];
      Encode(bytes[..|bytes| - 1]) + [UpperDigit(last / 16), UpperDigit(last % 16)]
  }

  /** Decoding an encoded array gives the array back. */
  lemma DecodeEncode(bytes: seq<Byte>)
    ensures Decode(Encode(bytes), |bytes|) == bytes
  {
    var d := Decode(Encode(bytes), |bytes|);
    forall i | 0 <= i < |bytes|
      ensures d[i] == bytes[i]
    {
      DecodeEncodeAt(bytes, i);
    }
  }

  /** One byte of DecodeEncode. */
  lemma DecodeEncodeAt(bytes: seq<Byte>, i: nat)
    requires i < |bytes|
    ensures Decode(Encode(bytes), |bytes|)[i] == bytes[i]
  {
    var e := Encode(bytes);
    var b := bytes[i];
    var hi, lo := HexVal(e[2 * i]), HexVal(e[2 * i + 1]);
    assert hi == b / 16 && lo == b % 16;
    assert Decode(e, |bytes|)[i] == 16 * hi + lo;
  }

  /** Encoding a decoded credential gives its first `2n` characters back, in
      upper case. */
  lemma EncodeDecode(s: string, n: nat)
    requires IsHexCredential(s, n)
    ensures Encode(Decode(s, n)) == UpperString(s[..2 * n])
  {
    var e := Encode(Decode(s, n));
    var u := UpperString(s[..2 * n]);
    forall j | 0 <= j < 2 * n
      ensures e[j] == u[j]
    {
      EncodeDecodeAt(s, n, j);
    }
  }

  /** One character of EncodeDecode. */
  lemma EncodeDecodeAt(s: string, n: nat, j: nat)
    requires IsHexCredential(s, n) && j < 2 * n
    ensures Encode(Decode(s, n))[j] == ToUpper(s[j])
  {
    var i := j / 2;
    assert 2 * i <= j <= 2 * i + 1;
    var c, c' := s[2 * i], s[2 * i + 1];
    assert IsHexDigit(c) && IsHexDigit(c');
    var d := Decode(s, n);
    var hi, lo := HexVal(c), HexVal(c');
    assert d[i] == 16 * hi + lo;
    assert d[i] / 16 == hi && d[i] % 16 == lo;
    var e := Encode(d);
    if j == 2 * i {
      SameDigit(e[j], c);
    } else {
      SameDigit(e[j], c');
    }
  }

  /** An upper-case digit is the upper-casing of every digit of its value. */
  lemma SameDigit(e: char, c: char)
    requires IsHexDigit(e) && IsHexDigit(c) && !('a' <= e <= 'f')
    requires HexVal(e) == HexVal(c)
    ensures e == ToUpper(c)
  {
    HexValCaseInsensitive(e, c);
  }

  /** Characters after index `2n - 1` cannot change the result. */
  lemma DecodeReadsOnlyPrefix(s: string, t: string, n: nat)
    requires IsHexCredential(s, n) && 2 * n <= |t|
    requires s[..2 * n] == t[..2 * n]
    ensures IsHexCredential(t, n) && Decode(t, n) == Decode(s, n)
  {
  }

  /** Upper- and lower-case spellings of a credential decode to the same bytes. */
  lemma DecodeCaseInsensitive(s: string, n: nat)
    requires IsHexCredential(s, n)
    ensures IsHexCredential(UpperString(s), n) && Decode(UpperString(s), n) == Decode(s, n)
    ensures IsHexCredential(LowerString(s), n) && Decode(LowerString(s), n) == Decode(s, n)
  {
    var u, l := UpperString(s), LowerString(s);
    forall j | 0 <= j < 2 * n
      ensures IsHexDigit(u[j]) && HexVal(u[j]) == HexVal(s[j])
      ensures IsHexDigit(l[j]) && HexVal(l[j]) == HexVal(s[j])
    {
      HexValCaseInsensitive(s[j], s[j]);
    }
    assert IsHexCredential(u, n) && IsHexCredential(l, n);
    var du, dl, ds := Decode(u, n), Decode(l, n), Decode(s, n);
    forall i | 0 <= i < n
      ensures du[i] == ds[i] && dl[i] == ds[i]
    {
    }
  }
}
