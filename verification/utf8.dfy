/**
 * UTF-8 as defined in section 4 of RFC 3629: the encoding of Unicode
 * scalar values as one to four bytes, and the syntax of well-formed byte
 * sequences.  Dafny's `char` is exactly a Unicode scalar value (a code
 * point outside the surrogate range D800-DFFF), which is what a Rust `char`
 * is, so a Rust `String` is modelled as a Dafny `string`.
 *
 * This stands in for `str::as_bytes`, `std::str::from_utf8` and
 * `String::from_utf8`.
 */
module Utf8 {
  import opened Results
  import opened Bytes

  /** Continuation bytes have the form 10xxxxxx. */
  predicate IsTail(b: u8) {
    0x80 <= b < 0xC0
  }

  /** The bytes of one scalar value, shortest form, per the table in section 3 of RFC 3629. */
  function EncodeChar(c: char): (r: seq<u8>)
    ensures 1 <= |r| <= 4
    ensures |r| == 1 <==> (c as int) < 0x80
    ensures r[0] < 0x80 || 0xC2 <= r[0] <= 0xF4
    ensures forall i | 1 <= i < |r| :: IsTail(r[i])
  {
    var n := c as int;
    if n < 0x80 then
      [n]
    else if n < 0x800 then
      [0xC0 + n / 0x40, 0x80 + n % 0x40]
    else if n < 0x1_0000 then
      [0xE0 + n / 0x1000, 0x80 + n / 0x40 % 0x40, 0x80 + n % 0x40]
    else
      [0xF0 + n / 0x4_0000, 0x80 + n / 0x1000 % 0x40, 0x80 + n / 0x40 % 0x40, 0x80 + n % 0x40]
  }

  /** Every character of `s` is below 0x80. */
  predicate IsAscii(s: string) {
    forall i | 0 <= i < |s| :: (s[i] as int) < 0x80
  }

  /**
   * The bytes of a string: the encodings of its characters, in order.
   * There is at least one byte per character, and exactly one per
   * character when the string is ASCII.
   */
  function Encode(s: string): (r: seq<u8>)
    ensures |r| >= |s|
    ensures |r| == |s| <==> IsAscii(s)
    decreases |s|
  {
    if |s| == 0 then []
    else
      assert IsAscii(s) <==> (s[0] as int) < 0x80 && IsAscii(s[1..]) by {
        if (s[0] as int) < 0x80 && IsAscii(s[1..]) {
          forall i | 1 <= i < |s| ensures (s[i] as int) < 0x80 {
            assert s[i] == s[1..][i - 1];
          }
        }
      }
      EncodeChar(s[0]) + Encode(s[1..])
  }

  /** The payload bits of a continuation byte. */
  function Low(b: u8): (r: int)
    requires IsTail(b)
    ensures 0 <= r < 0x40
  {
    b - 0x80
  }

  /**
   * The first scalar value of `b` and the number of bytes it occupies, or
   * `None` when `b` does not start with a well-formed sequence: the
   * `UTF8-char` rule of section 4 of RFC 3629, which excludes overlong
   * forms, surrogates and values above 10FFFF by the ranges allowed for the
   * second byte.
   */
  function DecodeFirst(b: seq<u8>): (r: Option<(char, nat)>)
    ensures r.Some? ==> 1 <= r.value.1 <= |b| && r.value.1 <= 4
  {
    if |b| == 0 then None
    else if b[0] < 0x80 then
      Some((b[0] as char, 1))
    else if 0xC2 <= b[0] <= 0xDF then
      if |b| >= 2 && IsTail(b[1]) then
        Some((((b[0] - 0xC0) * 0x40 + Low(b[1])) as char, 2))
      else None
    else if 0xE0 <= b[0] <= 0xEF then
      if |b| >= 3 && IsTail(b[1]) && IsTail(b[2])
         && (b[0] == 0xE0 ==> 0xA0 <= b[1])
         && (b[0] == 0xED ==> b[1] < 0xA0)
      then
        Some((((b[0] - 0xE0) * 0x1000 + Low(b[1]) * 0x40 + Low(b[2])) as char, 3))
      else None
    else if 0xF0 <= b[0] <= 0xF4 then
      if |b| >= 4 && IsTail(b[1]) && IsTail(b[2]) && IsTail(b[3])
         && (b[0] == 0xF0 ==> 0x90 <= b[1])
         && (b[0] == 0xF4 ==> b[1] < 0x90)
      then
        Some((((b[0] - 0xF0) * 0x4_0000 + Low(b[1]) * 0x1000 + Low(b[2]) * 0x40 + Low(b[3])) as char, 4))
      else None
    else
      None
  }

  /**
   * The text `b` spells, or `None` when `b` is not well-formed UTF-8.  A
   * decoded text re-encodes to exactly `b`.
   */
  function Decode(b: seq<u8>): (r: Option<string>)
    ensures r.Some? ==> |r.value| <= |b|
    ensures r.Some? ==> Encode(r.value) == b
    decreases |b|
  {
    if |b| == 0 then Some("")
    else
      match DecodeFirst(b)
      case None => None
      case Some((c, n)) =>
        match Decode(b[n..])
        case None => None
        case Some(rest) =>
          DecodeFirstSound(b);
          assert ([c] + rest)[0] == c && ([c] + rest)[1..] == rest;
          assert b == b[..n] + b[n..];
          Some([c] + rest)
  }

  /** Encoding distributes over concatenation. */
  lemma {:induction false} EncodeAppend(s: string, t: string)
    ensures Encode(s + t) == Encode(s) + Encode(t)
    decreases |s|
  {
    if |s| > 0 {
      assert (s + t)[0] == s[0];
      assert (s + t)[1..] == s[1..] + t;
      EncodeAppend(s[1..], t);
    } else {
      assert s + t == t;
    }
  }

  /** Well-formed UTF-8: the encoding of some string. */
  ghost predicate WellFormed(b: seq<u8>) {
    exists s: string :: Encode(s) == b
  }

  // ---------------------------------------------------------------------
  // Round trips

  lemma DecodeFirstEncode1(c: char, rest: seq<u8>)
    requires (c as int) < 0x80
    ensures DecodeFirst(EncodeChar(c) + rest) == Some((c, 1))
  {
  }

  lemma DecodeFirstEncode2(c: char, rest: seq<u8>)
    requires 0x80 <= (c as int) < 0x800
    ensures DecodeFirst(EncodeChar(c) + rest) == Some((c, 2))
  {
    var n := c as int;
    var b := EncodeChar(c) + rest;
    assert b[0] == 0xC0 + n / 0x40 && b[1] == 0x80 + n % 0x40;
    assert (b[0] - 0xC0) * 0x40 + Low(b[1]) == n;
  }

  lemma DecodeFirstEncode3(c: char, rest: seq<u8>)
    requires 0x800 <= (c as int) < 0x1_0000
    ensures DecodeFirst(EncodeChar(c) + rest) == Some((c, 3))
  {
    var n := c as int;
    var b := EncodeChar(c) + rest;
    assert b[0] == 0xE0 + n / 0x1000 && b[1] == 0x80 + n / 0x40 % 0x40 && b[2] == 0x80 + n % 0x40;
    assert n / 0x40 == (n / 0x1000) * 0x40 + n / 0x40 % 0x40;
    assert (b[0] - 0xE0) * 0x1000 + Low(b[1]) * 0x40 + Low(b[2]) == n;
  }

  lemma DecodeFirstEncode4(c: char, rest: seq<u8>)
    requires 0x1_0000 <= (c as int)
    ensures DecodeFirst(EncodeChar(c) + rest) == Some((c, 4))
  {
    var n := c as int;
    var b := EncodeChar(c) + rest;
    assert b[0] == 0xF0 + n / 0x4_0000 && b[1] == 0x80 + n / 0x1000 % 0x40;
    assert b[2] == 0x80 + n / 0x40 % 0x40 && b[3] == 0x80 + n % 0x40;
    assert n / 0x40 == (n / 0x1000) * 0x40 + n / 0x40 % 0x40;
    assert n / 0x1000 == (n / 0x4_0000) * 0x40 + n / 0x1000 % 0x40;
    assert (b[0] - 0xF0) * 0x4_0000 + Low(b[1]) * 0x1000 + Low(b[2]) * 0x40 + Low(b[3]) == n;
  }

  /** The first character of an encoding is decoded back, with its width. */
  lemma DecodeFirstEncode(c: char, rest: seq<u8>)
    ensures DecodeFirst(EncodeChar(c) + rest) == Some((c, |EncodeChar(c)|))
  {
    var n := c as int;
    if n < 0x80 {
      DecodeFirstEncode1(c, rest);
    } else if n < 0x800 {
      DecodeFirstEncode2(c, rest);
    } else if n < 0x1_0000 {
      DecodeFirstEncode3(c, rest);
    } else {
      DecodeFirstEncode4(c, rest);
    }
  }

  /** Decoding undoes encoding. */
  lemma {:induction false} DecodeEncode(s: string)
    ensures Decode(Encode(s)) == Some(s)
    decreases |s|
  {
    if |s| > 0 {
      var e := EncodeChar(s[0]);
      var b := Encode(s);
      DecodeFirstEncode(s[0], Encode(s[1..]));
      assert b[|e|..] == Encode(s[1..]);
      DecodeEncode(s[1..]);
      assert [s[0]] + s[1..] == s;
    }
  }

  lemma EncodeTwo(b0: u8, b1: u8)
    requires 0xC2 <= b0 <= 0xDF && IsTail(b1)
    ensures var n := (b0 - 0xC0) * 0x40 + Low(b1);
      0x80 <= n < 0x800 && EncodeChar(n as char) == [b0, b1]
  {
    var n := (b0 - 0xC0) * 0x40 + Low(b1);
    assert n / 0x40 == b0 - 0xC0;
  }

  lemma EncodeThree(b0: u8, b1: u8, b2: u8)
    requires 0xE0 <= b0 <= 0xEF && IsTail(b1) && IsTail(b2)
    requires b0 == 0xE0 ==> 0xA0 <= b1
    requires b0 == 0xED ==> b1 < 0xA0
    ensures var n := (b0 - 0xE0) * 0x1000 + Low(b1) * 0x40 + Low(b2);
      0x800 <= n < 0x1_0000 && (n < 0xD800 || 0xE000 <= n) && EncodeChar(n as char) == [b0, b1, b2]
  {
    var n := (b0 - 0xE0) * 0x1000 + Low(b1) * 0x40 + Low(b2);
    assert n / 0x40 == (b0 - 0xE0) * 0x40 + Low(b1);
    assert n / 0x1000 == b0 - 0xE0;
  }

  lemma EncodeFour(b0: u8, b1: u8, b2: u8, b3: u8)
    requires 0xF0 <= b0 <= 0xF4 && IsTail(b1) && IsTail(b2) && IsTail(b3)
    requires b0 == 0xF0 ==> 0x90 <= b1
    requires b0 == 0xF4 ==> b1 < 0x90
    ensures var n := (b0 - 0xF0) * 0x4_0000 + Low(b1) * 0x1000 + Low(b2) * 0x40 + Low(b3);
      0x1_0000 <= n < 0x11_0000 && EncodeChar(n as char) == [b0, b1, b2, b3]
  {
    var n := (b0 - 0xF0) * 0x4_0000 + Low(b1) * 0x1000 + Low(b2) * 0x40 + Low(b3);
    assert n / 0x40 == (b0 - 0xF0) * 0x1000 + Low(b1) * 0x40 + Low(b2);
    assert n / 0x1000 == (b0 - 0xF0) * 0x40 + Low(b1);
    assert n / 0x4_0000 == b0 - 0xF0;
  }

  /** Whatever `DecodeFirst` reads re-encodes to exactly the bytes it consumed. */
  lemma DecodeFirstSound(b: seq<u8>)
    requires DecodeFirst(b).Some?
    ensures EncodeChar(DecodeFirst(b).value.0) == b[..DecodeFirst(b).value.1]
  {
    if b[0] < 0x80 {
      assert b[..1] == [b[0]];
    } else if b[0] <= 0xDF {
      EncodeTwo(b[0], b[1]);
      assert b[..2] == [b[0], b[1]];
    } else if b[0] <= 0xEF {
      EncodeThree(b[0], b[1], b[2]);
      assert b[..3] == [b[0], b[1], b[2]];
    } else {
      EncodeFour(b[0], b[1], b[2], b[3]);
      assert b[..4] == [b[0], b[1], b[2], b[3]];
    }
  }

  /** `Decode` succeeds exactly on well-formed UTF-8. */
  lemma DecodeSucceedsIffWellFormed(b: seq<u8>)
    ensures Decode(b).Some? <==> WellFormed(b)
  {
    if WellFormed(b) {
      var s: string :| Encode(s) == b;
      DecodeEncode(s);
    }
  }

  /** No two strings have the same encoding. */
  lemma EncodeInjective(s: string, t: string)
    requires Encode(s) == Encode(t)
    ensures s == t
  {
    DecodeEncode(s);
    DecodeEncode(t);
  }

  // ---------------------------------------------------------------------
  // Where decoding stops

  /** `DecodeFirst` looks no further than the bytes it consumes. */
  lemma DecodeFirstLocal(a: seq<u8>, b: seq<u8>, n: nat)
    requires DecodeFirst(a).Some? && DecodeFirst(a).value.1 == n
    requires n <= |b| && a[..n] == b[..n]
    ensures DecodeFirst(b) == DecodeFirst(a)
  {
    assert a[0] == a[..n][0] == b[..n][0] == b[0];
    if n >= 2 { assert a[1] == a[..n][1] == b[..n][1] == b[1]; }
    if n >= 3 { assert a[2] == a[..n][2] == b[..n][2] == b[2]; }
    if n >= 4 { assert a[3] == a[..n][3] == b[..n][3] == b[3]; }
  }

  /**
   * `Utf8Error::valid_up_to`: how many bytes decode, reading characters
   * from the front until one fails.  That prefix is well-formed, and the
   * whole input is exactly when the prefix is all of it.
   */
  function ValidUpTo(b: seq<u8>): (r: nat)
    ensures r <= |b|
    ensures Decode(b[..r]).Some?
    decreases |b|
  {
    if |b| == 0 then 0
    else
      match DecodeFirst(b)
      case None => 0
      case Some((c, n)) =>
        var r := n + ValidUpTo(b[n..]);
        assert b[..r][..n] == b[..n];
        DecodeFirstLocal(b, b[..r], n);
        assert b[..r][n..] == b[n..][..r - n];
        r
  }

  /** No prefix longer than `ValidUpTo(b)` is well-formed. */
  lemma {:induction false} ValidUpToLongest(b: seq<u8>, k: nat)
    requires k <= |b| && Decode(b[..k]).Some?
    ensures k <= ValidUpTo(b)
    decreases |b|
  {
    if k > 0 {
      var n := DecodeFirst(b[..k]).value.1;
      assert b[..k][..n] == b[..n];
      DecodeFirstLocal(b[..k], b, n);
      assert b[..k][n..] == b[n..][..k - n];
      ValidUpToLongest(b[n..], k - n);
    }
  }

  /**
   * On input that does not decode, `ValidUpTo` is the longest well-formed
   * prefix, and it is shorter than the input.
   */
  lemma ValidUpToOnError(b: seq<u8>)
    requires Decode(b).None?
    ensures ValidUpTo(b) < |b|
    ensures WellFormed(b[..ValidUpTo(b)])
    ensures forall k | ValidUpTo(b) < k <= |b| :: !WellFormed(b[..k])
  {
    assert b[..|b|] == b;
    DecodeSucceedsIffWellFormed(b[..ValidUpTo(b)]);
    forall k | ValidUpTo(b) < k <= |b|
      ensures !WellFormed(b[..k])
    {
      DecodeSucceedsIffWellFormed(b[..k]);
      if Decode(b[..k]).Some? {
        ValidUpToLongest(b, k);
      }
    }
  }

  // ---------------------------------------------------------------------
  // ASCII

  /**
   * An ASCII string encodes one byte per character, each byte the code of
   * its character; any other string has a byte of 0x80 or more.
   */
  lemma {:induction false} EncodeAscii(s: string)
    ensures IsAscii(s) ==> |Encode(s)| == |s| && forall i | 0 <= i < |s| :: Encode(s)[i] == s[i] as int
    ensures !IsAscii(s) ==> exists j | 0 <= j < |Encode(s)| :: Encode(s)[j] >= 0x80
    decreases |s|
  {
    if |s| > 0 {
      EncodeAscii(s[1..]);
      var e := EncodeChar(s[0]);
      assert Encode(s) == e + Encode(s[1..]);
      if IsAscii(s) {
        assert IsAscii(s[1..]);
        forall i | 0 <= i < |s|
          ensures Encode(s)[i] == s[i] as int
        {
          if i > 0 {
            assert Encode(s)[i] == Encode(s[1..])[i - 1];
            assert s[i] == s[1..][i - 1];
          }
        }
      } else if (s[0] as int) >= 0x80 {
        assert Encode(s)[0] >= 0x80;
      } else {
        assert !IsAscii(s[1..]) by {
          var k :| 0 <= k < |s| && (s[k] as int) >= 0x80;
          assert s[1..][k - 1] == s[k];
        }
        var j :| 0 <= j < |Encode(s[1..])| && Encode(s[1..])[j] >= 0x80;
        assert Encode(s)[j + 1] == Encode(s[1..])[j];
      }
    }
  }
}
