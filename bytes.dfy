/**
 * The byte-level primitives of Node's `Buffer` that the decoders and the seed
 * builder rely on: clamped slicing (`subarray`), bounds-checked little-endian
 * reads (`readUInt8`, `readUInt16LE`, `readBigUInt64LE`), and the in-place
 * big-endian write `writeBigUInt64BE`, together with the positional value of
 * a byte string in either byte order and its inverse.
 */
module Bytes {
  import opened Wrappers

  newtype byte = x: int | 0 <= x < 0x100
  newtype u16 = x: int | 0 <= x < 0x1_0000
  newtype u64 = x: int | 0 <= x < 0x1_0000_0000_0000_0000

  /** The `RangeError` a checked read throws: `width` bytes at `offset` run past the end. */
  datatype DecodeError = OutOfRange(offset: nat, width: nat)

  function Min(a: nat, b: nat): nat {
    if a <= b then a else b
  }

  function Zeros(n: nat): (r: seq<byte>)
    ensures |r| == n && forall i | 0 <= i < n :: r[i] == 0
  {
    seq(n, _ => 0)
  }

  /** A Solana public key is this many bytes. */
  const KeyLength: nat := 32

  /**
   * `buf.subarray(start, end)` for non-negative bounds: both bounds are clamped
   * to the buffer length and a range whose end precedes its start is empty.
   * It never throws.
   */
  function Subarray(buf: seq<byte>, start: nat, end: nat): (r: seq<byte>)
    ensures |r| == if Min(start, |buf|) <= Min(end, |buf|) then Min(end, |buf|) - Min(start, |buf|) else 0
    ensures forall i | 0 <= i < |r| :: start + i < |buf| && r[i] == buf[start + i]
    ensures start <= end <= |buf| ==> r == buf[start..end]
  {
    var s, e := Min(start, |buf|), Min(end, |buf|);
    if s <= e then buf[s..e] else []
  }

  /** A clamped slice with its clamped bounds spelled out. */
  lemma SubarrayIs(buf: seq<byte>, start: nat, end: nat, s: nat, e: nat)
    requires s == Min(start, |buf|) && e == Min(end, |buf|) && s <= e
    ensures Subarray(buf, start, end) == buf[s..e]
  {
  }

  /** A slice of a slice is one slice. */
  lemma SliceOfSlice(buf: seq<byte>, a: nat, b: nat, c: nat, d: nat)
    requires a <= b <= |buf| && c <= d <= b - a
    ensures buf[a..b][c..d] == buf[a + c..a + d]
  {
    assert forall x | 0 <= x < d - c :: buf[a..b][c..d][x] == buf[a + c + x];
  }

  /**
   * Slicing a clamped slice is one clamped slice of the original buffer, as
   * long as the inner end stays inside the outer range or the outer range
   * already reaches the end of the buffer.
   */
  lemma SubarrayOfSubarray(buf: seq<byte>, start: nat, end: nat, start2: nat, end2: nat)
    requires start <= end && start2 <= end2
    requires end2 <= end - start || |buf| <= end
    ensures Subarray(Subarray(buf, start, end), start2, end2) == Subarray(buf, start + start2, start + end2)
  {
    var n := |buf|;
    var s1, e1 := Min(start, n), Min(end, n);
    SubarrayIs(buf, start, end, s1, e1);
    var c, d := Min(start2, e1 - s1), Min(end2, e1 - s1);
    SubarrayIs(buf[s1..e1], start2, end2, c, d);
    SliceOfSlice(buf, s1, e1, c, d);
    SubarrayIs(buf, start + start2, start + end2, s1 + c, s1 + d);
  }

  /** A slice splits at any point inside it. */
  lemma SliceSplit(s: seq<byte>, i: nat, j: nat, k: nat)
    requires i <= j <= k <= |s|
    ensures s[i..k] == s[i..j] + s[j..k]
  {
    assert forall x | 0 <= x < k - i :: s[i..k][x] == (s[i..j] + s[j..k])[x];
  }

  /** A slice of a prefix is the same slice of the whole. */
  lemma SliceOfPrefix(s: seq<byte>, n: nat, i: nat, j: nat)
    requires i <= j <= n <= |s|
    ensures s[..n][i..j] == s[i..j]
  {
    assert forall x | 0 <= x < j - i :: s[..n][i..j][x] == s[i..j][x];
  }

  /** `buf.subarray(start)`: everything from `start` on, or nothing past the end. */
  function Tail(buf: seq<byte>, start: nat): (r: seq<byte>)
    ensures start <= |buf| ==> r == buf[start..]
    ensures |buf| < start ==> r == []
  {
    Subarray(buf, start, |buf|)
  }

  function Pow256(n: nat): (r: nat)
    ensures r > 0
  {
    if n == 0 then 1 else 256 * Pow256(n - 1)
  }

  /** The unsigned value of `s` read with the least significant byte first. */
  function LeValue(s: seq<byte>): (r: nat)
    ensures r < Pow256(|s|)
  {
    if s == [] then 0 else s[0] as nat + 256 * LeValue(s[1..])
  }

  /** The `width` low bytes of `n`, least significant first. */
  function LeBytes(n: nat, width: nat): (r: seq<byte>)
    ensures |r| == width
  {
    if width == 0 then [] else [(n % 256) as byte] + LeBytes(n / 256, width - 1)
  }

  /** The unsigned value of `s` read with the most significant byte first. */
  function BeValue(s: seq<byte>): (r: nat)
    ensures r < Pow256(|s|)
  {
    if s == [] then 0 else 256 * BeValue(s[..|s| - 1]) + s[|s| - 1] as nat
  }

  /** The `width` low bytes of `n`, most significant first. */
  function BeBytes(n: nat, width: nat): (r: seq<byte>)
    ensures |r| == width
  {
    if width == 0 then [] else BeBytes(n / 256, width - 1) + [(n % 256) as byte]
  }

  lemma {:induction false} LeValueOfBytes(n: nat, width: nat)
    requires n < Pow256(width)
    ensures LeValue(LeBytes(n, width)) == n
  {
    if width > 0 {
      var r := LeBytes(n, width);
      assert r[1..] == LeBytes(n / 256, width - 1);
      LeValueOfBytes(n / 256, width - 1);
    }
  }

  lemma {:induction false} LeBytesOfValue(s: seq<byte>)
    ensures LeBytes(LeValue(s), |s|) == s
  {
    if s != [] {
      var v := LeValue(s[1..]);
      assert (s[0] as nat + 256 * v) % 256 == s[0] as nat;
      assert (s[0] as nat + 256 * v) / 256 == v;
      LeBytesOfValue(s[1..]);
    }
  }

  lemma {:induction false} BeValueOfBytes(n: nat, width: nat)
    requires n < Pow256(width)
    ensures BeValue(BeBytes(n, width)) == n
  {
    if width > 0 {
      var q, m := n / 256, n % 256;
      var r := BeBytes(n, width);
      assert r == BeBytes(q, width - 1) + [m as byte];
      assert r[..width - 1] == BeBytes(q, width - 1);
      assert q < Pow256(width - 1);
      BeValueOfBytes(q, width - 1);
      assert BeValue(r) == 256 * q + m;
    }
  }

  lemma {:induction false} BeBytesOfValue(s: seq<byte>)
    ensures BeBytes(BeValue(s), |s|) == s
  {
    if s != [] {
      var init := s[..|s| - 1];
      var v := BeValue(init);
      assert (256 * v + s[|s| - 1] as nat) % 256 == s[|s| - 1] as nat;
      assert (256 * v + s[|s| - 1] as nat) / 256 == v;
      BeBytesOfValue(init);
      assert s == init + [s[|s| - 1]];
    }
  }

  lemma Pow256Widths()
    ensures Pow256(2) == 0x1_0000
    ensures Pow256(8) == 0x1_0000_0000_0000_0000
  {
  }

  /** `buf.readUInt8(offset)`. */
  function ReadUInt8(buf: seq<byte>, offset: nat): (r: Result<byte, DecodeError>)
    ensures r.Ok? <==> offset < |buf|
    ensures r.Ok? ==> r.value == buf[offset]
    ensures r.Err? ==> r.error == OutOfRange(offset, 1)
  {
    if offset + 1 <= |buf| then Ok(buf[offset]) else Err(OutOfRange(offset, 1))
  }

  /** `buf.readUInt16LE(offset)`. */
  function ReadUInt16LE(buf: seq<byte>, offset: nat): (r: Result<u16, DecodeError>)
    ensures r.Ok? <==> offset + 2 <= |buf|
    ensures r.Ok? ==> r.value as nat == buf[offset] as nat + 256 * buf[offset + 1] as nat
    ensures r.Err? ==> r.error == OutOfRange(offset, 2)
  {
    if offset + 2 <= |buf| then
      var s := buf[offset..offset + 2];
      Pow256Widths();
      assert s[1..] == [buf[offset + 1]];
      assert LeValue(s[1..]) == buf[offset + 1] as nat + 256 * LeValue([]);
      Ok(LeValue(s) as u16)
    else
      Err(OutOfRange(offset, 2))
  }

  /** `buf.readBigUInt64LE(offset)`. */
  function ReadBigUInt64LE(buf: seq<byte>, offset: nat): (r: Result<u64, DecodeError>)
    ensures r.Ok? <==> offset + 8 <= |buf|
    ensures r.Ok? ==> r.value as nat == LeValue(buf[offset..offset + 8])
    ensures r.Err? ==> r.error == OutOfRange(offset, 8)
  {
    if offset + 8 <= |buf| then
      Pow256Widths();
      Ok(LeValue(buf[offset..offset + 8]) as u64)
    else
      Err(OutOfRange(offset, 8))
  }

  /**
   * `buf.writeBigUInt64BE(value, offset)`: the eight big-endian bytes of
   * `value` replace bytes `offset..offset+8` of the buffer, in place.
   */
  method WriteBigUInt64BE(buf: array<byte>, value: u64, offset: nat)
    requires offset + 8 <= buf.Length
    modifies buf
    ensures buf[..] == old(buf[..offset]) + BeBytes(value as nat, 8) + old(buf[offset + 8..])
  {
    var bytes := BeBytes(value as nat, 8);
    forall i | 0 <= i < 8 {
      buf[offset + i] := bytes[i];
    }
  }
}
