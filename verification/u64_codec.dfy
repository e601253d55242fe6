/** Unsigned 64-bit big-endian integers, as Python's `struct` module reads and
    writes them with the format '>Q'. This is the length prefix of every record
    in a tier-2 segment file. */
module U64Codec {

  /** One octet of a segment file. */
  newtype byte = x: int | 0 <= x < 256

  /** Number of bytes a '>Q' value occupies. */
  const U64_SIZE: nat := 8

  /** 2^64: every '>Q' value lies below this bound. */
  const U64_BOUND: nat := 0x1_0000_0000_0000_0000

  /** The values a '>Q' field can hold. */
  type u64 = x: nat | x < U64_BOUND

  datatype Option<T> = None | Some(value: T)

  /** 256^k, the number of distinct k-byte strings. */
  function Pow256(k: nat): (p: nat)
    ensures p >= 1
  {
    if k == 0 then 1 else 256 * Pow256(k - 1)
  }

  lemma Pow256U64()
    ensures Pow256(U64_SIZE) == U64_BOUND
  {
    assert Pow256(4) == 0x1_0000_0000;
  }

  /** The unsigned value of `s`, read with `s[0]` as the most significant byte. */
  function FromBigEndian(s: seq<byte>): (n: nat)
    ensures n < Pow256(|s|)
  {
    if s == [] then 0
    else
      var high := FromBigEndian(s[..|s| - 1]);
      assert high * 256 <= (Pow256(|s| - 1) - 1) * 256;
      high * 256 + s[|s| - 1] as nat
  }

  /** The `k`-byte big-endian representation of `n`. */
  function ToBigEndian(n: nat, k: nat): (s: seq<byte>)
    requires n < Pow256(k)
    ensures |s| == k && FromBigEndian(s) == n
  {
    if k == 0 then []
    else
      var s := ToBigEndian(n / 256, k - 1) + [(n % 256) as byte];
      assert s[..|s| - 1] == ToBigEndian(n / 256, k - 1);
      s
  }

  /** Every byte string is the representation of its own value: the
      representation is unique, so decoding loses nothing. */
  lemma {:induction false} ToFromBigEndian(s: seq<byte>)
    ensures ToBigEndian(FromBigEndian(s), |s|) == s
  {
    if s != [] {
      var init := s[..|s| - 1];
      ToFromBigEndian(init);
      var n := FromBigEndian(s);
      assert n / 256 == FromBigEndian(init) && n % 256 == s[|s| - 1] as nat;
      assert s == init + [s[|s| - 1]];
    }
  }

  /** The first byte carries the weight 256^(|s|-1): the value is big-endian. */
  lemma {:induction false} MostSignificantFirst(s: seq<byte>)
    requires |s| > 0
    ensures FromBigEndian(s) == s[0] as nat * Pow256(|s| - 1) + FromBigEndian(s[1..])
  {
    if |s| > 1 {
      var init := s[..|s| - 1];
      MostSignificantFirst(init);
      assert init[0] == s[0];
      assert init[1..] == s[1..][..|s[1..]| - 1];
      var a, p, b, c := s[0] as nat, Pow256(|s| - 2), FromBigEndian(init[1..]), s[|s| - 1] as nat;
      calc {
        FromBigEndian(s);
        FromBigEndian(init) * 256 + c;
        (a * p + b) * 256 + c;
        { ShiftByte(a, p, b, c); }
        a * (256 * p) + (b * 256 + c);
        a * Pow256(|s| - 1) + FromBigEndian(s[1..]);
      }
    }
  }

  /** Arithmetic helper: regrouping one more byte into a big-endian sum. */
  lemma ShiftByte(a: int, p: int, b: int, c: int)
    ensures (a * p + b) * 256 + c == a * (256 * p) + (b * 256 + c)
  {
  }

  /** The value of an 8-byte '>Q' header: the sum of its bytes, byte 0
      weighing 2^56 and byte 7 weighing 1. */
  function BE64(header: seq<byte>): (n: nat)
    requires |header| == U64_SIZE
    ensures n < U64_BOUND
  {
    header[0] as nat * 0x100_0000_0000_0000 + header[1] as nat * 0x1_0000_0000_0000
    + header[2] as nat * 0x100_0000_0000 + header[3] as nat * 0x1_0000_0000
    + header[4] as nat * 0x100_0000 + header[5] as nat * 0x1_0000
    + header[6] as nat * 0x100 + header[7] as nat
  }

  /** The weighted sum is the general big-endian value of 8 bytes. */
  lemma BE64IsBigEndian(h: seq<byte>)
    requires |h| == U64_SIZE
    ensures BE64(h) == FromBigEndian(h)
  {
    assert h[..1][..0] == [];
    assert FromBigEndian(h[..1]) == h[0] as nat;
    assert h[..2][..1] == h[..1];
    assert FromBigEndian(h[..2]) == FromBigEndian(h[..1]) * 256 + h[1] as nat;
    assert h[..3][..2] == h[..2];
    assert FromBigEndian(h[..3]) == FromBigEndian(h[..2]) * 256 + h[2] as nat;
    assert h[..4][..3] == h[..3];
    assert FromBigEndian(h[..4]) == FromBigEndian(h[..3]) * 256 + h[3] as nat;
    assert h[..5][..4] == h[..4];
    assert FromBigEndian(h[..5]) == FromBigEndian(h[..4]) * 256 + h[4] as nat;
    assert h[..6][..5] == h[..5];
    assert FromBigEndian(h[..6]) == FromBigEndian(h[..5]) * 256 + h[5] as nat;
    assert h[..7][..6] == h[..6];
    assert FromBigEndian(h[..7]) == FromBigEndian(h[..6]) * 256 + h[6] as nat;
    assert h[..8][..7] == h[..7];
    assert FromBigEndian(h[..8]) == FromBigEndian(h[..7]) * 256 + h[7] as nat;
    assert h[..8] == h;
  }

  /** `struct.pack('>Q', n)`: the 8-byte header announcing a length `n`. */
  function PackU64(n: nat): (header: seq<byte>)
    requires n < U64_BOUND
    ensures |header| == U64_SIZE && BE64(header) == n
  {
    Pow256U64();
    var header := ToBigEndian(n, U64_SIZE);
    BE64IsBigEndian(header);
    header
  }

  /** Packing the value of a header gives the header back. */
  lemma PackBE64(header: seq<byte>)
    requires |header| == U64_SIZE
    ensures PackU64(BE64(header)) == header
  {
    BE64IsBigEndian(header);
    ToFromBigEndian(header);
  }

  /** `struct.unpack('>Q', header)[0]`: defined exactly when the buffer is
      8 bytes long, and then its big-endian value; any other length raises
      `struct.error` (None here). */
  function UnpackU64(header: seq<byte>): (r: Option<u64>)
    ensures r.Some? <==> |header| == U64_SIZE
    ensures r.Some? ==> r.value == FromBigEndian(header)
  {
    if |header| == U64_SIZE then
      BE64IsBigEndian(header);
      Some(BE64(header))
    else None
  }

  /** Unpacking a packed value gives the value back. */
  lemma UnpackPack(n: u64)
    ensures UnpackU64(PackU64(n)) == Some(n)
  {
  }

  /** Packing an unpacked header gives the header back. */
  lemma PackUnpack(header: seq<byte>)
    requires |header| == U64_SIZE
    ensures UnpackU64(header).Some? && PackU64(UnpackU64(header).value) == header
  {
    PackBE64(header);
  }
}
