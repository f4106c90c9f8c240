/**
 * One PNG chunk (`Chunk` in src/chunk.rs), laid out as in section 5.3 of
 * the PNG specification: a four-byte big-endian length, the four type
 * bytes, the data, and a four-byte big-endian CRC computed over type and
 * data.
 */
module Chunks {
  import opened Results
  import opened Bytes
  import Crc32
  import Utf8
  import opened ChunkTypes

  /**
   * The chunk errors of the source.  Only the first is ever produced by
   * the code modelled here; the second wraps a UTF-8 failure for callers.
   */
  datatype ChunkError = ChunkError | Utf8ConversionError(cause: FromUtf8Error)

  /**
   * `std::string::FromUtf8Error`: the rejected bytes, handed back, and
   * `valid_up_to` of its `Utf8Error`, the length of the longest
   * well-formed prefix.
   */
  datatype FromUtf8Error = FromUtf8Error(bytes: seq<u8>, validUpTo: nat)

  /**
   * A chunk.  `length` and `crc` are stored, not derived: a chunk made by
   * `New` has them consistent with the type and data, a parsed one keeps
   * whatever the input said.
   */
  datatype Chunk = Chunk(length: u32, chunkType: ChunkType, data: seq<u8>, crc: u32)

  /** The bytes the CRC covers: type, then data. */
  function Covered(c: Chunk): (r: seq<u8>)
    ensures |r| == 4 + |c.data| && r[..4] == c.chunkType.bytes && r[4..] == c.data
  {
    c.chunkType.bytes + c.data
  }

  /** The stored CRC is the CRC of the type and data. */
  predicate CrcMatches(c: Chunk) {
    c.crc == Crc32.Hash(Covered(c))
  }

  /** The stored length is the number of data bytes (kept to 32 bits). */
  predicate LengthMatches(c: Chunk) {
    c.length == TruncateU32(|c.data|)
  }

  /**
   * `Chunk::new`: the length is the data length cast to `u32` (which
   * truncates past 2^32 - 1 bytes) and the CRC is computed over type and
   * data.
   */
  function New(chunkType: ChunkType, data: seq<u8>): (r: Chunk)
    ensures r.chunkType == chunkType && r.data == data
    ensures |data| < 0x1_0000_0000 ==> r.length == |data|
    ensures CrcMatches(r) && LengthMatches(r)
  {
    Chunk(TruncateU32(|data|), chunkType, data, Crc32.Hash(chunkType.bytes + data))
  }

  /** `as_bytes`: length, type, data and CRC, in that order. */
  function AsBytes(c: Chunk): (r: seq<u8>)
    ensures |r| == 12 + |c.data|
    ensures r[..4] == ToBigEndian(c.length)
    ensures r[4..8] == c.chunkType.bytes
    ensures r[8..|r| - 4] == c.data
    ensures r[|r| - 4..] == ToBigEndian(c.crc)
  {
    ToBigEndian(c.length) + c.chunkType.bytes + c.data + ToBigEndian(c.crc)
  }

  /**
   * `TryFrom<&[u8]>`: splits the input into length, type, data and CRC and
   * accepts it when the stored CRC matches the computed one.  As in the
   * source, the declared length is not compared with the data, and the
   * type bytes are not checked for letters.
   */
  function TryFrom(value: seq<u8>): (r: Result<Chunk, ChunkError>)
    ensures |value| < 12 ==> r == Err(ChunkError)
    ensures r.Ok? <==> |value| >= 12 && FromBigEndian(value[|value| - 4..]) == Crc32.Hash(value[4..|value| - 4])
    ensures r.Err? ==> r.error == ChunkError
    ensures r.Ok? ==> r.value.length == FromBigEndian(value[..4])
    ensures r.Ok? ==> r.value.chunkType.bytes == value[4..8]
    ensures r.Ok? ==> r.value.data == value[8..|value| - 4]
    ensures r.Ok? ==> r.value.crc == FromBigEndian(value[|value| - 4..])
    ensures r.Ok? ==> CrcMatches(r.value)
  {
    if |value| < 12 then Err(ChunkError)
    else
      var n := |value|;
      var chunkType := value[4..8];
      var data := value[8..n - 4];
      var crc := FromBigEndian(value[n - 4..]);
      assert chunkType + data == value[4..n - 4];
      if crc != Crc32.Hash(chunkType + data) then Err(ChunkError)
      else Ok(Chunk(FromBigEndian(value[..4]), ChunkType(chunkType), data, crc))
  }

  /**
   * `data_as_string`: the data read as UTF-8 text, or the error carrying
   * the data back.
   */
  function DataAsString(c: Chunk): (r: Result<string, FromUtf8Error>)
    ensures r.Ok? <==> Utf8.WellFormed(c.data)
    ensures r.Ok? ==> Utf8.Encode(r.value) == c.data
    ensures r.Err? ==> r.error.bytes == c.data
    ensures r.Err? ==> var v := r.error.validUpTo;
      && v < |c.data|
      && Utf8.WellFormed(c.data[..v])
      && forall k | v < k <= |c.data| :: !Utf8.WellFormed(c.data[..k])
  {
    Utf8.DecodeSucceedsIffWellFormed(c.data);
    match Utf8.Decode(c.data)
    case None =>
      Utf8.ValidUpToOnError(c.data);
      Err(FromUtf8Error(c.data, Utf8.ValidUpTo(c.data)))
    case Some(s) => Ok(s)
  }

  // ---------------------------------------------------------------------
  // Round trips

  /** A chunk whose fields are the four slices of `value` serialises to `value`. */
  lemma SerializeFields(c: Chunk, value: seq<u8>)
    requires |value| >= 12
    requires c.length == FromBigEndian(value[..4]) && c.chunkType.bytes == value[4..8]
    requires c.data == value[8..|value| - 4] && c.crc == FromBigEndian(value[|value| - 4..])
    ensures AsBytes(c) == value
  {
    var n := |value|;
    ToFromBigEndian(value[..4]);
    ToFromBigEndian(value[n - 4..]);
    assert value == value[..4] + value[4..8] + value[8..n - 4] + value[n - 4..];
  }

  /** Whatever the parser accepts, the serialiser writes back byte for byte. */
  lemma ParseThenSerialize(value: seq<u8>)
    requires TryFrom(value).Ok?
    ensures AsBytes(TryFrom(value).value) == value
  {
    SerializeFields(TryFrom(value).value, value);
  }

  /**
   * A serialised chunk parses back to itself exactly when its stored CRC
   * matches its type and data; its length field is taken on trust.
   */
  lemma SerializeThenParse(c: Chunk)
    ensures TryFrom(AsBytes(c)).Ok? <==> CrcMatches(c)
    ensures TryFrom(AsBytes(c)).Ok? ==> TryFrom(AsBytes(c)).value == c
  {
    var b := AsBytes(c);
    var n := |b|;
    assert b[4..n - 4] == Covered(c);
  }

  /** `New` then `AsBytes` then `TryFrom` gives back the chunk `New` made. */
  lemma NewRoundTrip(chunkType: ChunkType, data: seq<u8>)
    ensures TryFrom(AsBytes(New(chunkType, data))) == Ok(New(chunkType, data))
  {
    SerializeThenParse(New(chunkType, data));
  }

  // ---------------------------------------------------------------------
  // What the parser does not check

  /**
   * The length field is never compared with the data: replacing it with
   * any four bytes changes nothing but the parsed length.
   */
  lemma ParseIgnoresDeclaredLength(value: seq<u8>, field: seq<u8>)
    requires |value| >= 12 && |field| == 4
    ensures var other := field + value[4..];
      && (TryFrom(other).Ok? <==> TryFrom(value).Ok?)
      && (TryFrom(other).Ok? ==>
            TryFrom(other).value == TryFrom(value).value.(length := FromBigEndian(field)))
  {
    var other := field + value[4..];
    var n := |value|;
    assert other[4..n - 4] == value[4..n - 4];
    assert other[n - 4..] == value[n - 4..];
    assert other[..4] == field;
    assert other[4..8] == value[4..8];
    assert other[8..n - 4] == value[8..n - 4];
  }

  /**
   * Any four type bytes are accepted, letters or not, with any length
   * field, as long as the CRC covers them.
   */
  lemma ParseAcceptsAnyTypeBytes(length: u32, chunkType: TypeBytes, data: seq<u8>)
    ensures var crc := Crc32.Hash(chunkType + data);
      TryFrom(ToBigEndian(length) + chunkType + data + ToBigEndian(crc))
        == Ok(Chunk(length, ChunkType(chunkType), data, crc))
  {
    var c := Chunk(length, ChunkType(chunkType), data, Crc32.Hash(chunkType + data));
    SerializeThenParse(c);
  }

  // ---------------------------------------------------------------------
  // Corruption

  /** A four-byte field other than the encoding of `n` does not read as `n`. */
  lemma OtherField(n: u32, field: seq<u8>)
    requires |field| == 4 && field != ToBigEndian(n)
    ensures FromBigEndian(field) != n
  {
    ToFromBigEndian(field);
  }

  /** Where one covered byte of a serialised chunk is changed. */
  lemma CoveredAfterChange(c: Chunk, i: nat, v: u8)
    requires 4 <= i < 8 + |c.data|
    ensures var b := AsBytes(c)[i := v];
      && b[4..|b| - 4] == Covered(c)[i - 4 := v]
      && b[|b| - 4..] == ToBigEndian(c.crc)
  {
    var b0 := AsBytes(c);
    var b := b0[i := v];
    var n := |b0|;
    assert b0[4..n - 4] == Covered(c);
    assert b[n - 4..] == b0[n - 4..];
  }

  /**
   * Changing one covered byte of a serialised chunk changes the computed
   * CRC and leaves the CRC field alone.
   */
  lemma CoveredByteChange(c: Chunk, i: nat, v: u8)
    requires 4 <= i < 8 + |c.data| && v != AsBytes(c)[i]
    ensures var b := AsBytes(c)[i := v];
      && Crc32.Hash(b[4..|b| - 4]) != Crc32.Hash(Covered(c))
      && b[|b| - 4..] == ToBigEndian(c.crc)
  {
    CoveredAfterChange(c, i, v);
    Crc32.DetectsByteUpdate(Covered(c), i - 4, v);
  }

  /**
   * Changing one byte of the length field leaves the rest alone and makes
   * a field that no longer reads as the length.
   */
  lemma LengthByteChangeShape(c: Chunk, i: nat, v: u8)
    requires i < 4 && v != AsBytes(c)[i]
    ensures var b := AsBytes(c)[i := v];
      && b == b[..4] + AsBytes(c)[4..]
      && FromBigEndian(b[..4]) != c.length
  {
    var b0 := AsBytes(c);
    var b := b0[i := v];
    assert b == b[..4] + b0[4..];
    assert b[..4][i] != b0[..4][i];
    OtherField(c.length, b[..4]);
  }

  /** A change in the length field is accepted, with a different length. */
  lemma LengthByteChange(c: Chunk, i: nat, v: u8)
    requires CrcMatches(c)
    requires i < 4 && v != AsBytes(c)[i]
    ensures TryFrom(AsBytes(c)[i := v]).Ok?
    ensures TryFrom(AsBytes(c)[i := v]).value.length != c.length
  {
    var b := AsBytes(c)[i := v];
    LengthByteChangeShape(c, i, v);
    SerializeThenParse(c);
    ParseIgnoresDeclaredLength(AsBytes(c), b[..4]);
  }

  /** A change in the type or data is rejected: the CRC no longer matches. */
  lemma CoveredByteRejected(c: Chunk, i: nat, v: u8)
    requires CrcMatches(c)
    requires 4 <= i < 8 + |c.data| && v != AsBytes(c)[i]
    ensures TryFrom(AsBytes(c)[i := v]) == Err(ChunkError)
  {
    CoveredByteChange(c, i, v);
  }

  /** Changing a byte of the CRC field leaves the covered bytes alone. */
  lemma CrcByteChange(c: Chunk, i: nat, v: u8)
    requires 8 + |c.data| <= i < |AsBytes(c)| && v != AsBytes(c)[i]
    ensures var b := AsBytes(c)[i := v];
      && b[4..|b| - 4] == Covered(c)
      && b[|b| - 4..] != ToBigEndian(c.crc)
  {
    var b0 := AsBytes(c);
    var b := b0[i := v];
    var n := |b0|;
    assert b[4..n - 4] == b0[4..n - 4];
    assert b[n - 4..][i - (n - 4)] != b0[n - 4..][i - (n - 4)];
  }

  /** A change in the CRC field is rejected. */
  lemma CrcByteRejected(c: Chunk, i: nat, v: u8)
    requires CrcMatches(c)
    requires 8 + |c.data| <= i < |AsBytes(c)| && v != AsBytes(c)[i]
    ensures TryFrom(AsBytes(c)[i := v]) == Err(ChunkError)
  {
    var b := AsBytes(c)[i := v];
    CrcByteChange(c, i, v);
    OtherField(c.crc, b[|b| - 4..]);
  }

  /**
   * One changed byte in a serialised chunk whose CRC matches is caught
   * exactly when it lies in the type, data or CRC field; a change in the
   * length field goes through.
   */
  lemma DetectsSingleByteCorruption(c: Chunk, i: nat, v: u8)
    requires CrcMatches(c)
    requires i < |AsBytes(c)| && v != AsBytes(c)[i]
    ensures TryFrom(AsBytes(c)[i := v]).Ok? <==> i < 4
  {
    if i < 4 {
      LengthByteChange(c, i, v);
    } else if i < 8 + |c.data| {
      CoveredByteRejected(c, i, v);
    } else {
      CrcByteRejected(c, i, v);
    }
  }

  // ---------------------------------------------------------------------
  // Text

  /**
   * The data of a chunk made from text reads back as that text: `New` over
   * the UTF-8 bytes of `s`, then `DataAsString`, gives `s`.
   */
  lemma DataAsStringOfText(chunkType: ChunkType, s: string)
    ensures DataAsString(New(chunkType, Utf8.Encode(s))) == Ok(s)
  {
    var c := New(chunkType, Utf8.Encode(s));
    assert Utf8.WellFormed(c.data);
    Utf8.EncodeInjective(DataAsString(c).value, s);
  }
}
