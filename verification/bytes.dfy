/**
 * Fixed-width unsigned integers as bounded integers, and the big-endian
 * conversions of `u32::to_be_bytes` / `u32::from_be_bytes`.
 */
module Bytes {

  /** Rust's `u8`. */
  type u8 = x: int | 0 <= x < 0x100

  /** Rust's `u32`. */
  type u32 = x: int | 0 <= x < 0x1_0000_0000

  /** The `usize as u32` cast: keeps the low 32 bits of a length. */
  function TruncateU32(n: nat): (r: u32)
    ensures n < 0x1_0000_0000 ==> r == n
    ensures r <= n && (n - r) % 0x1_0000_0000 == 0
  {
    n % 0x1_0000_0000
  }

  /**
   * `u32::to_be_bytes`: four bytes, most significant first, so that
   * reading them back gives `n`.
   */
  function ToBigEndian(n: u32): (r: seq<u8>)
    ensures |r| == 4
    ensures FromBigEndian(r) == n
  {
    assert n == (n / 0x100_0000) * 0x100_0000 + n % 0x100_0000;
    assert n % 0x100_0000 == (n / 0x1_0000 % 0x100) * 0x1_0000 + n % 0x1_0000;
    assert n % 0x1_0000 == (n / 0x100 % 0x100) * 0x100 + n % 0x100;
    [n / 0x100_0000, n / 0x1_0000 % 0x100, n / 0x100 % 0x100, n % 0x100]
  }

  /**
   * `u32::from_be_bytes`: the first byte is the most significant (it picks
   * the block of 2^24 values the result lies in) and the last the least
   * significant.
   */
  function FromBigEndian(b: seq<u8>): (r: u32)
    requires |b| == 4
    ensures b[0] as int * 0x100_0000 <= r < (b[0] as int + 1) * 0x100_0000
    ensures r % 0x100 == b[3]
  {
    b[0] as int * 0x100_0000 + b[1] as int * 0x1_0000 + b[2] as int * 0x100 + b[3] as int
  }

  /** Writing what was read gives the original four bytes. */
  lemma ToFromBigEndian(b: seq<u8>)
    requires |b| == 4
    ensures ToBigEndian(FromBigEndian(b)) == b
  {
    var n := FromBigEndian(b);
    assert n / 0x1_0000 == b[0] as int * 0x100 + b[1] as int;
    assert n / 0x100 == b[0] as int * 0x1_0000 + b[1] as int * 0x100 + b[2] as int;
  }

  /** Two different four-byte groups never read as the same number. */
  lemma FromBigEndianInjective(a: seq<u8>, b: seq<u8>)
    requires |a| == 4 && |b| == 4 && a != b
    ensures FromBigEndian(a) != FromBigEndian(b)
  {
    ToFromBigEndian(a);
    ToFromBigEndian(b);
  }
}
