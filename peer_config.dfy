/**
 * The PeerConfig account record and its heuristic decoder
 * (`deserializePeerConfig`). After the skipped 8-byte discriminator the
 * decoder takes a 32-byte peer address (keeping only its last 20 bytes,
 * re-padded with 12 zero bytes) and a 32-byte enforced-options blob; the
 * rest of the buffer is read by fixed guesses: three tag bytes, two
 * overlapping 32-byte rate-limiter slices, a u16 fee and the last byte as
 * the bump. Every slice is clamped, so the decoder never fails.
 */
module PeerConfigCodec {
  import opened Wrappers
  import opened Bytes

  datatype EnforcedOptions = EnforcedOptions(data: seq<byte>)

  datatype RateLimiter = RateLimiter(data: seq<byte>)

  datatype PeerConfig = PeerConfig(
    peerAddress: seq<byte>,
    enforcedOptions: EnforcedOptions,
    outboundRateLimiter: Option<RateLimiter>,
    inboundRateLimiter: Option<RateLimiter>,
    feeBps: Option<u16>,
    bump: byte)

  /** Offset at which the guessed tail begins: discriminator, peer address, enforced options. */
  const TailAt: nat := 8 + 32 + 32

  /** The peer address bytes, re-padded, are 12 zeros and then bytes 20..40. */
  lemma PeerAddressSlices(data: seq<byte>)
    ensures Zeros(12) + Subarray(Subarray(data, 8, 40), 12, 32) == Zeros(12) + Subarray(data, 20, 40)
    ensures |data| >= 40 ==> |Zeros(12) + Subarray(data, 20, 40)| == 32
    ensures |data| >= 40 ==> (Zeros(12) + Subarray(data, 20, 40))[12..] == data[20..40]
  {
    SubarrayOfSubarray(data, 8, 40, 12, 32);
    assert (Zeros(12) + Subarray(data, 20, 40))[12..] == Subarray(data, 20, 40);
  }

  /** The tail bytes the decoder reads, at their absolute offsets. */
  lemma TailSlices(data: seq<byte>)
    requires |data| >= TailAt + 3
    ensures var tail := Tail(data, TailAt);
      tail[0] == data[TailAt] && tail[1] == data[TailAt + 1] && tail[2] == data[TailAt + 2] &&
      (|tail| > 4 ==> tail[3] == data[TailAt + 3] && tail[4] == data[TailAt + 4]) &&
      tail[|tail| - 1] == data[|data| - 1] &&
      Subarray(tail, 1, 33) == Subarray(data, TailAt + 1, TailAt + 33) &&
      Subarray(tail, 2, 34) == Subarray(data, TailAt + 2, TailAt + 34)
  {
    SubarrayOfSubarray(data, TailAt, |data|, 1, 33);
    SubarrayOfSubarray(data, TailAt, |data|, 2, 34);
  }

  /**
   * `deserializePeerConfig`. Its reads are checked reads, but the guard before
   * each of them keeps it in bounds, so it never fails. The contract states
   * the tail rules at absolute offsets of the account data.
   */
  method DeserializePeerConfig(data: seq<byte>) returns (r: PeerConfig)
    // 12 zero bytes, then bytes 20..40: bytes 8..20 of the buffer are dropped
    ensures r.peerAddress == Zeros(12) + Subarray(data, 20, 40)
    ensures |data| >= 40 ==> |r.peerAddress| == 32 && r.peerAddress[12..] == data[20..40]
    ensures r.enforcedOptions.data == Subarray(data, 40, TailAt)
    // fewer than three tail bytes: nothing more is read
    ensures |data| < TailAt + 3 ==>
      r.outboundRateLimiter.None? && r.inboundRateLimiter.None? &&
      r.feeBps.None? && r.bump == 0
    ensures |data| >= TailAt + 3 ==> r.bump == data[|data| - 1]
    ensures r.outboundRateLimiter.Some? <==> |data| >= TailAt + 3 && data[TailAt] != 0
    ensures r.outboundRateLimiter.Some? ==>
      r.outboundRateLimiter.value.data == Subarray(data, TailAt + 1, TailAt + 33)
    ensures r.inboundRateLimiter.Some? <==> |data| >= TailAt + 3 && data[TailAt + 1] != 0
    ensures r.inboundRateLimiter.Some? ==>
      r.inboundRateLimiter.value.data == Subarray(data, TailAt + 2, TailAt + 34)
    ensures r.feeBps.Some? <==> |data| >= TailAt + 5 && data[TailAt + 2] != 0
    ensures r.feeBps.Some? ==>
      r.feeBps.value as nat == data[TailAt + 3] as nat + 256 * data[TailAt + 4] as nat
  {
    var offset: nat := 0;

    // The discriminator is skipped: its eight bytes are never looked at.
    offset := offset + 8;

    var peerAddressBytes := Subarray(data, offset, offset + 32);
    offset := offset + 32;
    var evmAddress := Subarray(peerAddressBytes, 12, 32);
    var peerAddress := Zeros(12) + evmAddress;
    PeerAddressSlices(data);

    var enforcedOptionsData := Subarray(data, offset, offset + 32);
    offset := offset + 32;
    var enforcedOptions := EnforcedOptions(enforcedOptionsData);

    var remaining := Tail(data, offset);
    assert offset == TailAt;

    var outboundRateLimiter: Option<RateLimiter> := None;
    var inboundRateLimiter: Option<RateLimiter> := None;
    var feeBps: Option<u16> := None;
    var bump: byte := 0;

    if |remaining| >= 3 {
      TailSlices(data);
      var outboundSome := ReadUInt8(remaining, 0).value != 0;
      if outboundSome && |remaining| > 1 {
        outboundRateLimiter := Some(RateLimiter(Subarray(remaining, 1, 33)));
      }

      var inboundSome := ReadUInt8(remaining, 1).value != 0;
      if inboundSome && |remaining| > 2 {
        inboundRateLimiter := Some(RateLimiter(Subarray(remaining, 2, 34)));
      }

      var feeBpsSome := ReadUInt8(remaining, 2).value != 0;
      if feeBpsSome && |remaining| > 4 {
        feeBps := Some(ReadUInt16LE(remaining, 3).value);
      }

      bump := ReadUInt8(remaining, |remaining| - 1).value;
    }

    r := PeerConfig(peerAddress, enforcedOptions, outboundRateLimiter, inboundRateLimiter, feeBps, bump);
  }
}
