/**
 * The text forms bytes take in the decoder: `binascii.hexlify` and the split
 * into two-character tokens, `int(token, 16)`, and the built-in `hex()` whose
 * last two characters the checksum test compares.
 */
module Hex {

  type byte = x: int | 0 <= x < 256

  predicate IsHexDigit(c: char) {
    '0' <= c <= '9' || 'a' <= c <= 'f' || 'A' <= c <= 'F'
  }

  /** What `int(s, 16)` accepts: a non-empty string of hexadecimal digits. */
  predicate IsHexString(s: string) {
    |s| > 0 && forall i :: 0 <= i < |s| ==> IsHexDigit(s[i])
  }

  function DigitValue(c: char): (d: nat)
    requires IsHexDigit(c)
    ensures d < 16
  {
    if '0' <= c <= '9' then c as int - '0' as int
    else if 'a' <= c <= 'f' then c as int - 'a' as int + 10
    else c as int - 'A' as int + 10
  }

  /** The lower-case digit that `hexlify` and `hex()` write for d. */
  function DigitChar(d: nat): (c: char)
    requires d < 16
    ensures IsHexDigit(c) && DigitValue(c) == d
    ensures c != 'x'
  {
    if d < 10 then ('0' as int + d) as char else ('a' as int + d - 10) as char
  }

  /** `int(s, 16)`: the digits read most significant first. */
  function ParseHex(s: string): (n: nat)
    requires IsHexString(s)
    decreases |s|
  {
    if |s| == 1 then DigitValue(s[0])
    else ParseHex(s[..|s| - 1]) * 16 + DigitValue(s[|s| - 1])
  }

  /** The two characters `hexlify` writes for one byte. */
  function HexToken(b: byte): (t: string)
    ensures |t| == 2 && IsHexString(t)
  {
    [DigitChar(b / 16), DigitChar(b % 16)]
  }

  /** `int(token, 16)` recovers the byte a token was written for. */
  lemma ParseHexToken(b: byte)
    ensures ParseHex(HexToken(b)) == b
  {
    var t := HexToken(b);
    assert t[..1] == [DigitChar(b / 16)];
  }

  /** Distinct bytes have distinct tokens. */
  lemma HexTokenInjective(a: byte, b: byte)
    ensures HexToken(a) == HexToken(b) <==> a == b
  {
    ParseHexToken(a);
    ParseHexToken(b);
  }

  /** `binascii.hexlify(data)` decoded as ASCII. */
  function Hexlify(bs: seq<byte>): (s: string)
    ensures |s| == 2 * |bs|
  {
    if bs == [] then [] else HexToken(bs[0]) + Hexlify(bs[1..])
  }

  /** `[s[i:i + 2] for i in range(0, len(s), 2)]`. */
  function Chunks(s: string): (ts: seq<string>)
    ensures |ts| == (|s| + 1) / 2
    ensures forall i :: 0 <= i < |ts| ==>
              ts[i] == s[2 * i .. if 2 * i + 2 <= |s| then 2 * i + 2 else |s|]
    decreases |s|
  {
    if s == [] then []
    else if |s| <= 2 then [s]
    else [s[..2]] + Chunks(s[2..])
  }

  lemma {:induction false} HexlifyAt(bs: seq<byte>, i: nat)
    requires i < |bs|
    ensures Hexlify(bs)[2 * i .. 2 * i + 2] == HexToken(bs[i])
    decreases i
  {
    var rest := Hexlify(bs[1..]);
    assert Hexlify(bs) == HexToken(bs[0]) + rest;
    if i > 0 {
      HexlifyAt(bs[1..], i - 1);
      assert Hexlify(bs)[2 * i .. 2 * i + 2] == rest[2 * (i - 1) .. 2 * (i - 1) + 2];
    }
  }

  /** The token list the decoder works on: one two-character token per byte. */
  function Tokenise(bs: seq<byte>): (ts: seq<string>)
    ensures |ts| == |bs|
    ensures forall i :: 0 <= i < |bs| ==> ts[i] == HexToken(bs[i])
  {
    var s := Hexlify(bs);
    var ts := Chunks(s);
    assert forall i :: 0 <= i < |bs| ==> ts[i] == HexToken(bs[i]) by {
      forall i | 0 <= i < |bs| ensures ts[i] == HexToken(bs[i]) {
        HexlifyAt(bs, i);
      }
    }
    ts
  }

  /** The digits `hex()` writes for n, without leading zeros. */
  function HexDigits(n: nat): (s: string)
    ensures IsHexString(s) && ParseHex(s) == n
    decreases n
  {
    if n < 16 then [DigitChar(n)]
    else
      var s := HexDigits(n / 16) + [DigitChar(n % 16)];
      assert s[..|s| - 1] == HexDigits(n / 16);
      s
  }

  /** Python's `hex(n)` for a non-negative n. */
  function PyHex(n: nat): (s: string)
    ensures |s| >= 3 && s[..2] == "0x"
  {
    "0x" + HexDigits(n)
  }

  /** Python's `s[-2:]`. */
  function LastTwo(s: string): (t: string)
    ensures |s| >= 2 ==> |t| == 2 && t == s[|s| - 2..]
  {
    if |s| <= 2 then s else s[|s| - 2..]
  }

  /** The two low hex digits of n are the two digits of its low byte. */
  lemma LowByteDigits(n: nat)
    ensures (n % 256) % 16 == n % 16
    ensures (n / 16) % 16 == (n % 256) / 16
  {
    var a, r := n / 256, n % 256;
    var b, c := r / 16, r % 16;
    assert n == 256 * a + 16 * b + c;
    assert n / 16 == 16 * a + b;
  }

  /**
   * The last two characters of `hex(n)`: the token of the low byte when n has
   * at least two digits, and 'x' followed by the single digit otherwise.
   */
  lemma PyHexSuffix(n: nat)
    ensures n >= 16 ==> LastTwo(PyHex(n)) == HexToken(n % 256)
    ensures n < 16 ==> LastTwo(PyHex(n)) == ['x', DigitChar(n)]
  {
    if n >= 16 {
      var q := n / 16;
      var h := HexDigits(q);
      assert HexDigits(n) == h + [DigitChar(n % 16)];
      LowByteDigits(n);
      if q < 16 {
        assert h == [DigitChar(q)];
      } else {
        assert h == HexDigits(q / 16) + [DigitChar(q % 16)];
        assert h[|h| - 1] == DigitChar(q % 16);
      }
      assert LastTwo(PyHex(n)) == [h[|h| - 1], DigitChar(n % 16)];
    }
  }

  /**
   * `hex(n)[-2:]` equals the token of byte b exactly when n has at least two
   * hex digits and its low byte is b.
   */
  lemma PyHexSuffixMatches(n: nat, b: byte)
    ensures LastTwo(PyHex(n)) == HexToken(b) <==> n >= 16 && n % 256 == b
  {
    PyHexSuffix(n);
    HexTokenInjective(n % 256, b);
    if n < 16 {
      assert HexToken(b)[0] != 'x';
    }
  }
}
