/** Byte-level vocabulary shared by the value model and the codec: bytes,
    the C integer widths the library stores, fixed-width little-endian
    fields, and the 4-byte padding rule of the wire format.

    The library writes integers in the host's native byte order; this model
    fixes that order to little-endian. */
module Bytes {

  type byte = x: int | 0 <= x < 0x100

  const Pow32: nat := 0x1_0000_0000
  const Pow64: nat := 0x1_0000_0000_0000_0000

  /** uint32_t, uint64_t / size_t / unsigned long, and int64_t. */
  type u32 = x: int | 0 <= x < 0x1_0000_0000
  type u64 = x: int | 0 <= x < 0x1_0000_0000_0000_0000
  type i64 = x: int | -0x8000_0000_0000_0000 <= x < 0x8000_0000_0000_0000

  function Pow256(w: nat): (p: nat)
    ensures p > 0
  {
    if w == 0 then 1 else 256 * Pow256(w - 1)
  }

  lemma FieldWidths()
    ensures Pow256(4) == Pow32 && Pow256(8) == Pow64
  {
    assert Pow256(2) == 0x1_0000;
    assert Pow256(4) == Pow256(2) * Pow256(2) by { assert Pow256(4) == 256 * 256 * Pow256(2); }
  }

  /** The w bytes that a store of n into a w-byte unsigned field leaves in
      memory, least significant byte first; digits above 256^w are dropped,
      as a C conversion to the narrower unsigned type drops them. */
  function LittleEndian(n: nat, w: nat): (r: seq<byte>)
    ensures |r| == w
  {
    if w == 0 then [] else [n % 256] + LittleEndian(n / 256, w - 1)
  }

  /** The unsigned integer whose little-endian image is s. */
  function FromLittleEndian(s: seq<byte>): (n: nat)
    ensures n < Pow256(|s|)
  {
    if s == [] then 0 else s[0] + 256 * FromLittleEndian(s[1..])
  }

  /** Reading back a stored field yields the stored number when it fits the
      field. */
  lemma {:induction false} LittleEndianRoundTrip(n: nat, w: nat)
    requires n < Pow256(w)
    ensures FromLittleEndian(LittleEndian(n, w)) == n
  {
    if w > 0 {
      LittleEndianRoundTrip(n / 256, w - 1);
      assert LittleEndian(n, w)[1..] == LittleEndian(n / 256, w - 1);
    }
  }

  /** Storing a field read from memory writes the same bytes back. */
  lemma {:induction false} FromLittleEndianRoundTrip(s: seq<byte>)
    ensures LittleEndian(FromLittleEndian(s), |s|) == s
  {
    if s != [] {
      FromLittleEndianRoundTrip(s[1..]);
      var n := FromLittleEndian(s);
      assert n % 256 == s[0] && n / 256 == FromLittleEndian(s[1..]);
    }
  }

  /** `(uint32_t) n` and `(uint64_t) n` written to memory. */
  function Store32(n: int): (r: seq<byte>)
    ensures |r| == 4
  {
    LittleEndian(n % Pow32, 4)
  }

  function Store64(n: int): (r: seq<byte>)
    ensures |r| == 8
  {
    LittleEndian(n % Pow64, 8)
  }

  lemma Store32RoundTrip(n: nat)
    requires n < Pow32
    ensures FromLittleEndian(Store32(n)) == n
  {
    FieldWidths();
    assert n % Pow32 == n;
    LittleEndianRoundTrip(n, 4);
  }

  lemma Store64RoundTrip(n: int)
    ensures FromLittleEndian(Store64(n)) == n % Pow64
  {
    FieldWidths();
    LittleEndianRoundTrip(n % Pow64, 8);
  }

  /** The int64_t whose two's-complement bit pattern is the unsigned u. */
  function Signed64(u: u64): (x: i64)
    ensures x % Pow64 == u
  {
    if u < 0x8000_0000_0000_0000 then u else u - Pow64
  }

  /** A store of x into an int64_t field followed by a read of that field
      returns x. */
  lemma Int64RoundTrip(x: i64)
    ensures FromLittleEndian(Store64(x)) < Pow64
    ensures Signed64(FromLittleEndian(Store64(x))) == x
  {
    Store64RoundTrip(x);
  }

  ghost predicate Aligned(m: nat) {
    m % 4 == 0
  }

  lemma AlignedAdd(a: nat, b: nat)
    requires Aligned(a) && Aligned(b)
    ensures Aligned(a + b)
  {
    assert a + b == 4 * (a / 4 + b / 4);
  }

  /** XPC_DATA_PAD_SIZE: the least multiple of 4 that is at least n. */
  function PadSize(n: nat): (p: nat)
    ensures Aligned(p) && n <= p < n + 4
  {
    (n + 3) / 4 * 4
  }

  /** No multiple of 4 at least n lies below PadSize(n). */
  lemma PadSizeLeast(n: nat, m: nat)
    requires Aligned(m) && n <= m
    ensures PadSize(n) <= m
  {
  }

  function Zeros(n: nat): (r: seq<byte>)
    ensures |r| == n && forall i :: 0 <= i < n ==> r[i] == 0
  {
    seq(n, _ => 0)
  }

  /** XPC_COPY_PADDED: the bytes of s followed by zeros up to the next
      multiple of 4. */
  function Pad(s: seq<byte>): (r: seq<byte>)
    ensures |r| == PadSize(|s|) && Aligned(|r|)
    ensures r[..|s|] == s
    ensures forall i :: |s| <= i < |r| ==> r[i] == 0
  {
    s + Zeros(PadSize(|s|) - |s|)
  }

  /** True of a C string's characters: no byte before the terminator is 0. */
  predicate NoNul(s: seq<byte>) {
    forall i :: 0 <= i < |s| ==> s[i] != 0
  }

  /** What `strnlen(p, limit)` measures at p: the bytes before the first 0
      among the first `limit` bytes, or all of them. */
  function TakeUntilNul(s: seq<byte>): (r: seq<byte>)
    ensures |r| <= |s| && r == s[..|r|] && NoNul(r)
    ensures |r| < |s| ==> s[|r|] == 0
  {
    if s == [] || s[0] == 0 then [] else [s[0]] + TakeUntilNul(s[1..])
  }

  /** A terminated string is read back as exactly its characters. */
  lemma {:induction false} TakeUntilNulOfTerminated(s: seq<byte>, key: seq<byte>)
    requires NoNul(key) && |key| < |s| && s[..|key|] == key && s[|key|] == 0
    ensures TakeUntilNul(s) == key
  {
    var r := TakeUntilNul(s);
    assert |r| == |key|;
  }
}
