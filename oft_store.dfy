/**
 * The OFTStore account record and its strict fixed-offset decoder
 * (`deserializeOFTStore`), the Borsh-style encoding it inverts, and the
 * minimum-length guard that `readOFTStoreAccount` applies before decoding.
 *
 * Byte layout, counted from the start of the account data:
 *   0..8     discriminator (skipped, never checked)
 *   8        oft_type           (u8, not validated against the enum)
 *   9..17    ld2sd_rate         (u64 LE)
 *   17..49   token_mint         (key)
 *   49..81   token_escrow       (key)
 *   81..113  endpoint_program   (key)
 *   113      bump               (u8)
 *   114..122 tvl_ld             (u64 LE)
 *   122..154 admin              (key)
 *   154..156 default_fee_bps    (u16 LE)
 *   156      paused             (any nonzero byte is true)
 *   157      pauser tag, then 32 key bytes when the tag is nonzero
 *   then     unpauser tag, then 32 key bytes when the tag is nonzero
 */
module OFTStoreCodec {
  import opened Wrappers
  import opened Bytes

  /** Keys are kept as the bytes they were sliced from. */
  datatype OFTStore = OFTStore(
    oftType: byte,
    ld2sdRate: u64,
    tokenMint: seq<byte>,
    tokenEscrow: seq<byte>,
    endpointProgram: seq<byte>,
    bump: byte,
    tvlLd: u64,
    admin: seq<byte>,
    defaultFeeBps: u16,
    paused: bool,
    pauser: Option<seq<byte>>,
    unpauser: Option<seq<byte>>)

  const DiscriminatorLength: nat := 8
  /** Offset of the pauser tag: everything before it has a fixed width. */
  const PauserTagAt: nat := 157

  /** Where the unpauser tag sits, given the pauser tag byte. */
  function UnpauserTagAt(pauserTag: byte): nat {
    if pauserTag != 0 then PauserTagAt + 1 + KeyLength else PauserTagAt + 1
  }

  /**
   * What the decoder returns for `data`, stated at absolute offsets: the
   * first checked read that runs past the end decides the error; otherwise
   * every field is taken from its fixed position, and only the last key
   * slice may come back shorter than 32 bytes.
   */
  function OFTStoreLayout(data: seq<byte>): (r: Result<OFTStore, DecodeError>)
    ensures r.Ok? <==> |data| > PauserTagAt && |data| > UnpauserTagAt(data[PauserTagAt])
    ensures |data| < 159 ==> r.Err?
    ensures r.Ok? ==> |r.value.tokenMint| == |r.value.tokenEscrow| == |r.value.endpointProgram| == KeyLength
    ensures r.Ok? ==> |r.value.admin| == KeyLength
    ensures r.Ok? && r.value.pauser.Some? ==> |r.value.pauser.value| == KeyLength
  {
    if |data| < 9 then Err(OutOfRange(8, 1))
    else if |data| < 17 then Err(OutOfRange(9, 8))
    else if |data| < 114 then Err(OutOfRange(113, 1))
    else if |data| < 122 then Err(OutOfRange(114, 8))
    else if |data| < 156 then Err(OutOfRange(154, 2))
    else if |data| < 157 then Err(OutOfRange(156, 1))
    else if |data| < 158 then Err(OutOfRange(157, 1))
    else
      var tag2 := UnpauserTagAt(data[PauserTagAt]);
      if |data| <= tag2 then Err(OutOfRange(tag2, 1))
      else
        Pow256Widths();
        Ok(OFTStore(
          data[8],
          LeValue(data[9..17]) as u64,
          data[17..49],
          data[49..81],
          data[81..113],
          data[113],
          LeValue(data[114..122]) as u64,
          data[122..154],
          LeValue(data[154..156]) as u16,
          data[156] != 0,
          if data[PauserTagAt] != 0 then Some(data[158..190]) else None,
          if data[tag2] != 0 then Some(Subarray(data, tag2 + 1, tag2 + 1 + KeyLength)) else None))
  }

  /**
   * `deserializeOFTStore`: a cursor starts at 0, skips the discriminator and
   * advances field by field; every checked read may throw. The result is
   * exactly the fixed-offset layout above, and a successful decode leaves the
   * cursor just past the record's encoding.
   */
  method DeserializeOFTStore(data: seq<byte>) returns (r: Result<OFTStore, DecodeError>, offset: nat)
    ensures r == OFTStoreLayout(data)
    ensures r.Ok? ==> offset == EncodedSize(r.value)
  {
    offset := 0;

    // The discriminator is skipped: its eight bytes are never looked at.
    offset := offset + DiscriminatorLength;

    var oftType :- ReadUInt8(data, offset);
    offset := offset + 1;

    var ld2sdRate :- ReadBigUInt64LE(data, offset);
    offset := offset + 8;

    var tokenMint := Subarray(data, offset, offset + KeyLength);
    offset := offset + KeyLength;

    var tokenEscrow := Subarray(data, offset, offset + KeyLength);
    offset := offset + KeyLength;

    var endpointProgram := Subarray(data, offset, offset + KeyLength);
    offset := offset + KeyLength;

    var bump :- ReadUInt8(data, offset);
    offset := offset + 1;

    var tvlLd :- ReadBigUInt64LE(data, offset);
    offset := offset + 8;

    var admin := Subarray(data, offset, offset + KeyLength);
    offset := offset + KeyLength;

    var defaultFeeBps :- ReadUInt16LE(data, offset);
    offset := offset + 2;

    var pausedByte :- ReadUInt8(data, offset);
    var paused := pausedByte != 0;
    offset := offset + 1;

    var pauserTag :- ReadUInt8(data, offset);
    var pauserSome := pauserTag != 0;
    offset := offset + 1;
    var pauser := if pauserSome then Some(Subarray(data, offset, offset + KeyLength)) else None;
    if pauserSome {
      offset := offset + KeyLength;
    }

    var unpauserTag :- ReadUInt8(data, offset);
    var unpauserSome := unpauserTag != 0;
    offset := offset + 1;
    var unpauser := if unpauserSome then Some(Subarray(data, offset, offset + KeyLength)) else None;
    if unpauserSome {
      offset := offset + KeyLength;
    }

    Pow256Widths();
    assert LeValue(data[154..156]) == data[154] as nat + 256 * data[155] as nat by {
      assert data[154..156][1..] == [data[155]];
    }
    r := Ok(OFTStore(oftType, ld2sdRate, tokenMint, tokenEscrow, endpointProgram, bump,
                     tvlLd, admin, defaultFeeBps, paused, pauser, unpauser));
  }

  // ----- The encoding the decoder inverts -----

  /** A record the on-chain program can store: every key is 32 bytes. */
  predicate WellFormed(s: OFTStore) {
    |s.tokenMint| == KeyLength && |s.tokenEscrow| == KeyLength &&
    |s.endpointProgram| == KeyLength && |s.admin| == KeyLength &&
    (s.pauser.Some? ==> |s.pauser.value| == KeyLength) &&
    (s.unpauser.Some? ==> |s.unpauser.value| == KeyLength)
  }

  /** Bytes the record occupies, discriminator included. */
  function EncodedSize(s: OFTStore): nat {
    PauserTagAt + 2
    + (if s.pauser.Some? then KeyLength else 0)
    + (if s.unpauser.Some? then KeyLength else 0)
  }

  /** An optional key: tag 0 alone, or tag 1 followed by the key. */
  function EncodeOptionKey(k: Option<seq<byte>>): seq<byte> {
    match k
    case None => [0]
    case Some(key) => [1] + key
  }

  /** The fixed-width part: everything before the pauser tag. */
  function EncodeFixed(s: OFTStore, discriminator: seq<byte>): (r: seq<byte>)
    requires |discriminator| == DiscriminatorLength && WellFormed(s)
    ensures |r| == PauserTagAt
  {
    discriminator + [s.oftType] + LeBytes(s.ld2sdRate as nat, 8)
    + s.tokenMint + s.tokenEscrow + s.endpointProgram
    + [s.bump] + LeBytes(s.tvlLd as nat, 8) + s.admin
    + LeBytes(s.defaultFeeBps as nat, 2) + [if s.paused then 1 else 0]
  }

  /** The account data the program writes for `s`, after `discriminator`. */
  function EncodeOFTStore(s: OFTStore, discriminator: seq<byte>): (r: seq<byte>)
    requires |discriminator| == DiscriminatorLength && WellFormed(s)
    ensures |r| == EncodedSize(s)
  {
    EncodeFixed(s, discriminator) + EncodeOptionKey(s.pauser) + EncodeOptionKey(s.unpauser)
  }

  /** Where each field of the fixed part lands. */
  lemma EncodeFixedFields(s: OFTStore, discriminator: seq<byte>)
    requires |discriminator| == DiscriminatorLength && WellFormed(s)
    ensures var e := EncodeFixed(s, discriminator);
      e[..8] == discriminator && e[8] == s.oftType && e[9..17] == LeBytes(s.ld2sdRate as nat, 8) &&
      e[17..49] == s.tokenMint && e[49..81] == s.tokenEscrow && e[81..113] == s.endpointProgram &&
      e[113] == s.bump && e[114..122] == LeBytes(s.tvlLd as nat, 8) && e[122..154] == s.admin &&
      e[154..156] == LeBytes(s.defaultFeeBps as nat, 2) && e[156] == (if s.paused then 1 else 0)
  {
    var e := EncodeFixed(s, discriminator);
    var a1 := discriminator + [s.oftType];
    var a2 := a1 + LeBytes(s.ld2sdRate as nat, 8);
    var a3 := a2 + s.tokenMint;
    var a4 := a3 + s.tokenEscrow;
    var a5 := a4 + s.endpointProgram;
    var a6 := a5 + [s.bump];
    var a7 := a6 + LeBytes(s.tvlLd as nat, 8);
    var a8 := a7 + s.admin;
    var a9 := a8 + LeBytes(s.defaultFeeBps as nat, 2);
    assert e == a9 + [if s.paused then 1 else 0];
    assert e[..8] == discriminator by { assert e[..8] == a1[..8]; }
    assert e[9..17] == a2[9..17];
    assert e[17..49] == a3[17..49];
    assert e[49..81] == a4[49..81];
    assert e[81..113] == a5[81..113];
    assert e[114..122] == a7[114..122];
    assert e[122..154] == a8[122..154];
    assert e[154..156] == a9[154..156];
  }

  /** A buffer whose first 157 bytes are a fixed part decodes those bytes to its fields. */
  lemma FixedPartDecodes(data: seq<byte>, s: OFTStore, discriminator: seq<byte>)
    requires |discriminator| == DiscriminatorLength && WellFormed(s)
    requires |data| >= PauserTagAt && data[..PauserTagAt] == EncodeFixed(s, discriminator)
    ensures data[8] == s.oftType && LeValue(data[9..17]) == s.ld2sdRate as nat
    ensures data[17..49] == s.tokenMint && data[49..81] == s.tokenEscrow
    ensures data[81..113] == s.endpointProgram && data[113] == s.bump
    ensures LeValue(data[114..122]) == s.tvlLd as nat && data[122..154] == s.admin
    ensures LeValue(data[154..156]) == s.defaultFeeBps as nat && (data[156] != 0) == s.paused
  {
    var f := data[..PauserTagAt];
    EncodeFixedFields(s, discriminator);
    assert data[8] == f[8] && data[113] == f[113] && data[156] == f[156];
    SliceOfPrefix(data, PauserTagAt, 9, 17);
    SliceOfPrefix(data, PauserTagAt, 114, 122);
    SliceOfPrefix(data, PauserTagAt, 154, 156);
    SliceOfPrefix(data, PauserTagAt, 17, 49);
    SliceOfPrefix(data, PauserTagAt, 49, 81);
    SliceOfPrefix(data, PauserTagAt, 81, 113);
    SliceOfPrefix(data, PauserTagAt, 122, 154);
    Pow256Widths();
    LeValueOfBytes(s.ld2sdRate as nat, 8);
    LeValueOfBytes(s.tvlLd as nat, 8);
    LeValueOfBytes(s.defaultFeeBps as nat, 2);
  }

  /**
   * Round trip: decoding the encoding of any well-formed record, under any
   * discriminator, gives the record back, in all four pauser/unpauser cases.
   */
  lemma OFTStoreRoundTrip(s: OFTStore, discriminator: seq<byte>)
    requires |discriminator| == DiscriminatorLength && WellFormed(s)
    ensures OFTStoreLayout(EncodeOFTStore(s, discriminator)) == Ok(s)
  {
    var f := EncodeFixed(s, discriminator);
    var p := EncodeOptionKey(s.pauser);
    var u := EncodeOptionKey(s.unpauser);
    var e := EncodeOFTStore(s, discriminator);
    assert e == f + (p + u);
    assert e[..PauserTagAt] == f;
    FixedPartDecodes(e, s, discriminator);
    assert e[PauserTagAt..] == p + u;
    assert e[PauserTagAt] == p[0];
    var tag2 := UnpauserTagAt(e[PauserTagAt]);
    assert tag2 == PauserTagAt + |p|;
    assert e[tag2..] == u;
    assert e[tag2] == u[0];
    if s.pauser.Some? {
      assert e[158..190] == s.pauser.value by { assert e[PauserTagAt..tag2] == p; }
    }
    if s.unpauser.Some? {
      assert |e| == tag2 + 1 + KeyLength;
      assert e[tag2 + 1..] == u[1..] == s.unpauser.value;
      assert e[tag2 + 1..tag2 + 1 + KeyLength] == e[tag2 + 1..];
    }
    var r := OFTStoreLayout(e);
    assert r.Ok?;
    assert r.value.pauser == s.pauser;
    assert r.value.unpauser == s.unpauser;
  }

  /** Any 157 bytes are the fixed part of the record they decode to. */
  lemma FixedPartOfFields(data: seq<byte>, s: OFTStore)
    requires |data| >= PauserTagAt && WellFormed(s)
    requires data[8] == s.oftType && LeValue(data[9..17]) == s.ld2sdRate as nat
    requires data[17..49] == s.tokenMint && data[49..81] == s.tokenEscrow
    requires data[81..113] == s.endpointProgram && data[113] == s.bump
    requires LeValue(data[114..122]) == s.tvlLd as nat && data[122..154] == s.admin
    requires LeValue(data[154..156]) == s.defaultFeeBps as nat
    requires data[156] <= 1 && (data[156] != 0) == s.paused
    ensures data[..PauserTagAt] == EncodeFixed(s, data[..DiscriminatorLength])
  {
    LeBytesOfValue(data[9..17]);
    LeBytesOfValue(data[114..122]);
    LeBytesOfValue(data[154..156]);
    var x := data[..PauserTagAt];
    assert x[..9] == data[..8] + [data[8]];
    assert x[..17] == x[..9] + data[9..17];
    assert x[..49] == x[..17] + data[17..49];
    assert x[..81] == x[..49] + data[49..81];
    assert x[..113] == x[..81] + data[81..113];
    assert x[..114] == x[..113] + [data[113]];
    assert x[..122] == x[..114] + data[114..122];
    assert x[..154] == x[..122] + data[122..154];
    assert x[..156] == x[..154] + data[154..156];
    assert x == x[..156] + [data[156]];
  }

  /**
   * The converse: when the decoder succeeds on a buffer with 0/1 tags and
   * flags and room for the whole last key, the buffer begins with the
   * encoding of the decoded record under its own discriminator.
   */
  lemma OFTStoreEncodesDecoded(data: seq<byte>, s: OFTStore)
    requires OFTStoreLayout(data) == Ok(s)
    requires data[156] <= 1 && data[PauserTagAt] <= 1 && data[UnpauserTagAt(data[PauserTagAt])] <= 1
    requires |data| >= EncodedSize(s)
    ensures WellFormed(s)
    ensures data[..EncodedSize(s)] == EncodeOFTStore(s, data[..DiscriminatorLength])
  {
    var n := EncodedSize(s);
    var tag2 := UnpauserTagAt(data[PauserTagAt]);
    assert s.unpauser.Some? ==> |s.unpauser.value| == KeyLength;
    FixedPartOfFields(data, s);
    if s.pauser.Some? {
      assert data[PauserTagAt] == 1 && data[158..190] == s.pauser.value;
      SliceSplit(data, PauserTagAt, PauserTagAt + 1, tag2);
      assert data[PauserTagAt..PauserTagAt + 1] == [data[PauserTagAt]];
    } else {
      assert tag2 == PauserTagAt + 1 && data[PauserTagAt] == 0;
      assert data[PauserTagAt..tag2] == [data[PauserTagAt]];
    }
    assert data[PauserTagAt..tag2] == EncodeOptionKey(s.pauser);
    if s.unpauser.Some? {
      assert Subarray(data, tag2 + 1, tag2 + 1 + KeyLength) == data[tag2 + 1..n];
      SliceSplit(data, tag2, tag2 + 1, n);
      assert data[tag2..tag2 + 1] == [data[tag2]];
      assert data[tag2] == 1;
    } else {
      assert n == tag2 + 1 && data[tag2] == 0;
      assert data[tag2..n] == [data[tag2]];
    }
    assert data[tag2..n] == EncodeOptionKey(s.unpauser);
    SliceSplit(data, 0, PauserTagAt, tag2);
    SliceSplit(data, 0, tag2, n);
    assert data[..n] == data[0..n] && data[..tag2] == data[0..tag2] && data[..PauserTagAt] == data[0..PauserTagAt];
  }

  /**
   * A successful decode looks at nothing beyond the record's own bytes: any
   * buffer that agrees on those bytes decodes to the same record, so
   * trailing bytes are ignored.
   */
  lemma OFTStoreReadsOnlyItsBytes(data: seq<byte>, other: seq<byte>, s: OFTStore)
    requires OFTStoreLayout(data) == Ok(s)
    requires |data| >= EncodedSize(s) && |other| >= EncodedSize(s)
    requires other[..EncodedSize(s)] == data[..EncodedSize(s)]
    ensures OFTStoreLayout(other) == Ok(s)
  {
    var n := EncodedSize(s);
    assert forall i | 0 <= i < n :: other[i] == data[i] by {
      forall i | 0 <= i < n ensures other[i] == data[i] {
        assert other[..n][i] == data[..n][i];
      }
    }
    var tag2 := UnpauserTagAt(data[PauserTagAt]);
    assert other[PauserTagAt] == data[PauserTagAt];
    assert other[tag2] == data[tag2];
    assert other[9..17] == data[9..17];
    assert other[114..122] == data[114..122];
    assert other[154..156] == data[154..156];
    assert other[17..49] == data[17..49];
    assert other[49..81] == data[49..81];
    assert other[81..113] == data[81..113];
    assert other[122..154] == data[122..154];
    if data[PauserTagAt] != 0 {
      assert other[158..190] == data[158..190];
    }
    if data[tag2] != 0 {
      assert Subarray(other, tag2 + 1, tag2 + 1 + KeyLength) == Subarray(data, tag2 + 1, tag2 + 1 + KeyLength);
    }
  }

  /**
   * The shortest record: 159 bytes with both tags zero decode, with neither
   * optional key present, and whatever follows byte 159 is ignored.
   */
  lemma OFTStoreMinimalRecord(data: seq<byte>)
    requires |data| >= 159 && data[157] == 0 && data[158] == 0
    ensures OFTStoreLayout(data).Ok?
    ensures OFTStoreLayout(data).value.pauser.None? && OFTStoreLayout(data).value.unpauser.None?
    ensures EncodedSize(OFTStoreLayout(data).value) == 159
    ensures OFTStoreLayout(data[..159]) == OFTStoreLayout(data)
  {
    var s := OFTStoreLayout(data).value;
    OFTStoreReadsOnlyItsBytes(data, data[..159], s);
  }

  /** The discriminator never influences the decoded record or the error. */
  lemma OFTStoreIgnoresDiscriminator(data: seq<byte>, other: seq<byte>)
    requires |data| >= DiscriminatorLength && |other| == |data|
    requires other[DiscriminatorLength..] == data[DiscriminatorLength..]
    ensures OFTStoreLayout(other) == OFTStoreLayout(data)
  {
    assert forall i | DiscriminatorLength <= i < |data| :: other[i] == data[i] by {
      forall i | DiscriminatorLength <= i < |data| ensures other[i] == data[i] {
        assert other[DiscriminatorLength..][i - DiscriminatorLength] == data[DiscriminatorLength..][i - DiscriminatorLength];
      }
    }
    if |data| >= 158 {
      var tag2 := UnpauserTagAt(data[PauserTagAt]);
      assert other[9..17] == data[9..17];
      assert other[114..122] == data[114..122];
      assert other[154..156] == data[154..156];
      assert other[17..49] == data[17..49];
      assert other[49..81] == data[49..81];
      assert other[81..113] == data[81..113];
      assert other[122..154] == data[122..154];
      if |data| > 190 {
        assert other[158..190] == data[158..190];
      }
      if |data| > tag2 {
        assert Subarray(other, tag2 + 1, tag2 + 1 + KeyLength) == Subarray(data, tag2 + 1, tag2 + 1 + KeyLength);
      }
    }
  }

  // ----- The length guard of readOFTStoreAccount -----

  /** The sum the guard uses: every fixed field and both tags, but not the discriminator. */
  const ExpectedMinLength: nat := 1 + 8 + 32 + 32 + 32 + 1 + 8 + 32 + 2 + 1 + 1 + 1

  /** As written: buffers of `ExpectedMinLength` bytes or more go on to the decoder. */
  predicate PassesLengthGuard(data: seq<byte>): (r: bool)
    ensures r <==> 151 <= |data|
  {
    |data| >= ExpectedMinLength
  }

  /**
   * The guard lets through every buffer of 151 to 158 bytes, and the decoder
   * throws on each of them; the all-zero buffer of 151 bytes is one.
   */
  lemma LengthGuardAdmitsUndecodable(data: seq<byte>)
    requires ExpectedMinLength <= |data| < DiscriminatorLength + ExpectedMinLength
    ensures PassesLengthGuard(data) && OFTStoreLayout(data).Err?
    ensures OFTStoreLayout(Zeros(151)) == Err(OutOfRange(154, 2)) && PassesLengthGuard(Zeros(151))
  {
  }

  /** Corrected: the discriminator is counted too. */
  const MinAccountLength: nat := DiscriminatorLength + ExpectedMinLength

  predicate PassesAccountLengthGuard(data: seq<byte>): (r: bool)
    ensures r <==> 159 <= |data|
  {
    |data| >= MinAccountLength
  }

  /**
   * The corrected guard rejects only buffers the decoder cannot decode, and
   * it is tight: a buffer of exactly `MinAccountLength` bytes can decode.
   */
  lemma AccountLengthGuardExact(data: seq<byte>)
    ensures OFTStoreLayout(data).Ok? ==> PassesAccountLengthGuard(data)
    ensures OFTStoreLayout(Zeros(MinAccountLength)).Ok?
  {
    OFTStoreMinimalRecord(Zeros(MinAccountLength));
  }
}
