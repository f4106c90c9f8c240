/**
 * The four-byte chunk type of a PNG chunk (`ChunkType` in
 * src/chunk_type.rs), with the naming conventions of section 5.4 of the PNG
 * specification: a type is four ASCII letters, and the case of each letter
 * (bit 5 of the byte) carries one property of the chunk.
 */
module ChunkTypes {
  import opened Results
  import opened Bytes
  import Utf8

  /** The two ways building a chunk type can fail. */
  datatype ChunkTypeError = ByteConversionError | StringConversionError

  /** Exactly four bytes, as the source's `[u8; 4]`. */
  type TypeBytes = s: seq<u8> | |s| == 4 witness [0x41, 0x41, 0x41, 0x41]

  /**
   * A chunk type.  The `bytes` field is public in the source, and the chunk
   * parser fills it without checking, so any four bytes are representable;
   * only the two constructors below check for letters.  Equality is
   * byte-wise, as the derived `PartialEq`.
   */
  datatype ChunkType = ChunkType(bytes: TypeBytes)

  /** An ASCII capital letter A-Z. */
  predicate IsUpper(b: u8) {
    65 <= b <= 90
  }

  /** An ASCII small letter a-z. */
  predicate IsLower(b: u8) {
    97 <= b <= 122
  }

  /** The property bit of section 5.4 of the PNG specification: bit 5, value 32. */
  function PropertyBit(b: u8): (r: nat)
    ensures r < 2
  {
    b / 0x20 % 2
  }

  /**
   * `is_valid_byte`: the byte is an ASCII letter, that is, read as a
   * character it lies in 'A'-'Z' or 'a'-'z'.
   */
  predicate IsValidByte(b: u8)
    ensures IsValidByte(b) <==> 'A' <= b as char <= 'Z' || 'a' <= b as char <= 'z'
  {
    IsUpper(b) || IsLower(b)
  }

  /**
   * For letters, upper case is property bit 0 and lower case is property
   * bit 1, which is what makes a type's case carry its properties.
   */
  lemma ValidByteIsLetter(b: u8)
    requires IsValidByte(b)
    ensures IsUpper(b) <==> PropertyBit(b) == 0
    ensures IsLower(b) <==> PropertyBit(b) == 1
  {
  }

  /**
   * The position of the first byte that is not a letter, scanning from the
   * front as the source's loop does, or `None` when all are letters.
   */
  function FirstInvalid(s: seq<u8>): (r: Option<nat>)
    ensures r.None? <==> forall i | 0 <= i < |s| :: IsValidByte(s[i])
    ensures r.Some? ==> r.value < |s| && !IsValidByte(s[r.value])
    ensures r.Some? ==> forall i | 0 <= i < r.value :: IsValidByte(s[i])
    decreases |s|
  {
    if |s| == 0 then None
    else if !IsValidByte(s[0]) then Some(0)
    else
      match FirstInvalid(s[1..])
      case None => None
      case Some(k) => Some(k + 1)
  }

  /** `TryFrom<[u8; 4]>`: accepts four letters, keeping them as they are. */
  function TryFromBytes(value: TypeBytes): (r: Result<ChunkType, ChunkTypeError>)
    ensures r.Ok? <==> forall i | 0 <= i < 4 :: IsValidByte(value[i])
    ensures r.Ok? ==> r.value.bytes == value
    ensures r.Err? ==> r.error == ByteConversionError
  {
    if FirstInvalid(value).Some? then Err(ByteConversionError)
    else Ok(ChunkType(value))
  }

  /**
   * `FromStr`: the string's UTF-8 bytes must number exactly four (its byte
   * length, not its character count), and then they are checked as
   * `TryFromBytes` checks them.
   */
  function FromStr(s: string): (r: Result<ChunkType, ChunkTypeError>)
    ensures r == Err(StringConversionError) <==> |Utf8.Encode(s)| != 4
    ensures |Utf8.Encode(s)| == 4 ==> r == TryFromBytes(Utf8.Encode(s))
  {
    var b := Utf8.Encode(s);
    if |b| != 4 then Err(StringConversionError)
    else if FirstInvalid(b).Some? then Err(ByteConversionError)
    else Ok(ChunkType(b))
  }

  /** Every byte of the type is a letter, as both constructors ensure. */
  predicate HasLetters(t: ChunkType) {
    forall i | 0 <= i < 4 :: IsValidByte(t.bytes[i])
  }

  /** A string of four ASCII letters. */
  predicate IsLetterString(s: string) {
    |s| == 4 && forall i | 0 <= i < 4 :: (s[i] as int) < 0x80 && IsValidByte(s[i] as int)
  }

  /**
   * `FromStr` succeeds exactly on strings of four ASCII letters, and then
   * the type's bytes are the letters' codes.  A string of four bytes that
   * are not all letters is a `ByteConversionError`.
   */
  lemma FromStrLetters(s: string)
    ensures FromStr(s).Ok? <==> IsLetterString(s)
    ensures FromStr(s).Ok? ==> forall i | 0 <= i < 4 :: FromStr(s).value.bytes[i] == s[i] as int
    ensures FromStr(s).Ok? ==> HasLetters(FromStr(s).value)
    ensures |Utf8.Encode(s)| == 4 && !IsLetterString(s) ==> FromStr(s) == Err(ByteConversionError)
  {
    var b := Utf8.Encode(s);
    Utf8.EncodeAscii(s);
    if FromStr(s).Ok? {
      assert Utf8.IsAscii(s);
      assert IsLetterString(s);
    }
    if IsLetterString(s) {
      assert Utf8.IsAscii(s);
    }
  }

  // ---------------------------------------------------------------------
  // The properties carried by letter case

  // Section 5.4 of the PNG specification assigns bit 5 of bytes 0 to 3 to
  // ancillary, private, reserved and safe-to-copy.  For a letter byte each
  // predicate below is exactly that bit.

  /** `is_critical`: the first byte is a capital, so the ancillary bit is clear. */
  predicate IsCritical(t: ChunkType)
    ensures IsValidByte(t.bytes[0]) ==> (IsCritical(t) <==> PropertyBit(t.bytes[0]) == 0)
  {
    IsUpper(t.bytes[0])
  }

  /** `is_public`: the second byte is a capital, so the private bit is clear. */
  predicate IsPublic(t: ChunkType)
    ensures IsValidByte(t.bytes[1]) ==> (IsPublic(t) <==> PropertyBit(t.bytes[1]) == 0)
  {
    IsUpper(t.bytes[1])
  }

  /** `is_reserved_bit_valid`: the third byte is a capital, so the reserved bit is clear. */
  predicate IsReservedBitValid(t: ChunkType)
    ensures IsValidByte(t.bytes[2]) ==> (IsReservedBitValid(t) <==> PropertyBit(t.bytes[2]) == 0)
  {
    IsUpper(t.bytes[2])
  }

  /** `is_safe_to_copy`: the fourth byte is a small letter, so the safe-to-copy bit is set. */
  predicate IsSafeToCopy(t: ChunkType)
    ensures IsValidByte(t.bytes[3]) ==> (IsSafeToCopy(t) <==> PropertyBit(t.bytes[3]) == 1)
  {
    IsLower(t.bytes[3])
  }

  /**
   * `is_valid`: as written in the source, only the reserved-bit check.  It
   * looks at the third byte alone (see `PropertiesAreLocal`).
   */
  predicate IsValid(t: ChunkType)
    ensures IsValidByte(t.bytes[2]) ==> (IsValid(t) <==> PropertyBit(t.bytes[2]) == 0)
  {
    IsReservedBitValid(t)
  }

  /**
   * Each property depends on its own byte alone: changing any other byte
   * leaves it unchanged.
   */
  lemma PropertiesAreLocal(t: ChunkType, i: nat, v: u8)
    requires i < 4
    ensures var u := ChunkType(t.bytes[i := v]);
      && (i != 0 ==> IsCritical(u) == IsCritical(t))
      && (i != 1 ==> IsPublic(u) == IsPublic(t))
      && (i != 2 ==> IsReservedBitValid(u) == IsReservedBitValid(t) && IsValid(u) == IsValid(t))
      && (i != 3 ==> IsSafeToCopy(u) == IsSafeToCopy(t))
  {
  }

  // ---------------------------------------------------------------------
  // Text

  /**
   * `as_string`, and the text `Display` writes: the type's bytes read as
   * UTF-8.  The source unwraps the conversion, so it requires bytes that
   * are well-formed UTF-8.
   */
  function AsString(t: ChunkType): (r: string)
    requires Utf8.Decode(t.bytes).Some?
    ensures Utf8.Encode(r) == t.bytes
  {
    Utf8.Decode(t.bytes).value
  }

  /**
   * The text of a type built from a string is that string: the
   * precondition of `AsString` holds and the characters come back
   * unchanged.
   */
  lemma AsStringFromStr(s: string)
    requires FromStr(s).Ok?
    ensures Utf8.Decode(FromStr(s).value.bytes).Some?
    ensures AsString(FromStr(s).value) == s
  {
    var t := FromStr(s).value;
    assert t.bytes == Utf8.Encode(s);
    Utf8.DecodeEncode(s);
    Utf8.EncodeInjective(AsString(t), s);
  }

  /**
   * The text of a type of letters has four characters, the letters whose
   * codes are the bytes; in particular `AsString` is defined on every type
   * `TryFromBytes` accepts.
   */
  lemma AsStringOfLetters(t: ChunkType)
    requires HasLetters(t)
    ensures Utf8.Decode(t.bytes).Some?
    ensures |AsString(t)| == 4
    ensures forall i | 0 <= i < 4 :: AsString(t)[i] as int == t.bytes[i]
  {
    var s: string := [t.bytes[0] as char, t.bytes[1] as char, t.bytes[2] as char, t.bytes[3] as char];
    Utf8.EncodeAscii(s);
    assert Utf8.Encode(s) == t.bytes;
    Utf8.DecodeEncode(s);
  }

  // ---------------------------------------------------------------------
  // Ordering

  /**
   * The derived `Ord` on the byte array: lexicographic, the first
   * differing byte deciding.
   */
  predicate LexLess(a: seq<u8>, b: seq<u8>)
    requires |a| == |b|
    decreases |a|
  {
    |a| > 0 && (a[0] < b[0] || (a[0] == b[0] && LexLess(a[1..], b[1..])))
  }

  /**
   * `a < b` for chunk types: at the first byte where the two differ, the
   * byte of `a` is smaller.
   */
  predicate Less(a: ChunkType, b: ChunkType)
    ensures Less(a, b) <==> exists k | 0 <= k < 4 :: a.bytes[k] < b.bytes[k] && a.bytes[..k] == b.bytes[..k]
  {
    LexLessFirstDifference(a.bytes, b.bytes);
    LexLess(a.bytes, b.bytes)
  }

  /** `LexLess` is decided by the first position where the sequences differ. */
  lemma {:induction false} LexLessFirstDifference(a: seq<u8>, b: seq<u8>)
    requires |a| == |b|
    ensures LexLess(a, b) <==> exists k | 0 <= k < |a| :: a[k] < b[k] && a[..k] == b[..k]
    decreases |a|
  {
    if |a| > 0 {
      LexLessFirstDifference(a[1..], b[1..]);
      if LexLess(a, b) && a[0] == b[0] {
        var k :| 0 <= k < |a| - 1 && a[1..][k] < b[1..][k] && a[1..][..k] == b[1..][..k];
        assert a[..k + 1] == [a[0]] + a[1..][..k];
        assert b[..k + 1] == [b[0]] + b[1..][..k];
      }
      if exists k | 0 <= k < |a| :: a[k] < b[k] && a[..k] == b[..k] {
        var k :| 0 <= k < |a| && a[k] < b[k] && a[..k] == b[..k];
        if k > 0 {
          assert a[0] == a[..k][0] == b[..k][0] == b[0];
          assert a[1..][k - 1] < b[1..][k - 1];
          assert a[1..][..k - 1] == a[..k][1..] == b[..k][1..] == b[1..][..k - 1];
        }
      }
    }
  }

  /** The order on chunk types is a strict total order. */
  lemma {:induction false} LexLessStrictTotal(a: seq<u8>, b: seq<u8>, c: seq<u8>)
    requires |a| == |b| == |c|
    ensures !LexLess(a, a)
    ensures LexLess(a, b) ==> !LexLess(b, a)
    ensures LexLess(a, b) && LexLess(b, c) ==> LexLess(a, c)
    ensures a != b ==> LexLess(a, b) || LexLess(b, a)
    decreases |a|
  {
    if |a| > 0 {
      LexLessStrictTotal(a[1..], b[1..], c[1..]);
      if a != b && a[0] == b[0] {
        assert a == [a[0]] + a[1..] && b == [b[0]] + b[1..];
      }
    }
  }

  /** `Less` is irreflexive, asymmetric, transitive and total on distinct types. */
  lemma LessStrictTotal(a: ChunkType, b: ChunkType, c: ChunkType)
    ensures !Less(a, a)
    ensures Less(a, b) ==> !Less(b, a)
    ensures Less(a, b) && Less(b, c) ==> Less(a, c)
    ensures a != b ==> Less(a, b) || Less(b, a)
  {
    LexLessStrictTotal(a.bytes, b.bytes, c.bytes);
  }
}
