/**
 * The seeds from which `calculatePDAAddress` derives a PeerConfig account
 * address: the UTF-8 bytes of "Peer", the 32 bytes of the OFTStore key and
 * the remote endpoint id as an 8-byte big-endian integer. The derivation
 * itself (`PublicKey.findProgramAddressSync`) belongs to the Solana client
 * library and is taken as a parameter: any function of the seed list and
 * the program id, which may fail.
 */
module PeerSeeds {
  import opened Wrappers
  import opened Bytes

  /** The per-seed bound of program-derived addresses. */
  const MaxSeedLength: nat := 32
  const EidWidth: nat := 8

  /** `Buffer.from(s, "utf8")` for a string of ASCII characters: one byte per character. */
  function AsciiBytes(s: string): (r: seq<byte>)
    requires forall i | 0 <= i < |s| :: s[i] < 128 as char
    ensures |r| == |s| && forall i | 0 <= i < |s| :: r[i] as int == s[i] as int
  {
    seq(|s|, i requires 0 <= i < |s| => s[i] as int as byte)
  }

  const PeerSeed: seq<byte> := AsciiBytes("Peer")

  /** The seed bytes are 'P', 'e', 'e', 'r'. */
  lemma PeerSeedBytes()
    ensures PeerSeed == [0x50, 0x65, 0x65, 0x72]
  {
    assert "Peer"[0] == 'P' && "Peer"[1] == 'e' && "Peer"[2] == 'e' && "Peer"[3] == 'r';
  }

  /** The seed list for the PeerConfig of `storeKey` towards endpoint `remoteEid`. */
  function PeerConfigSeeds(storeKey: seq<byte>, remoteEid: u64): (r: seq<seq<byte>>)
    ensures |r| == 3 && r[0] == PeerSeed && r[1] == storeKey
    ensures |r[2]| == EidWidth && BeValue(r[2]) == remoteEid as nat
  {
    Pow256Widths();
    BeValueOfBytes(remoteEid as nat, EidWidth);
    [PeerSeed, storeKey, BeBytes(remoteEid as nat, EidWidth)]
  }

  /**
   * The seed-building part of `calculatePDAAddress`: an 8-byte zeroed buffer
   * is allocated and the endpoint id written into it big-endian, in place.
   */
  method BuildPeerConfigSeeds(storeKey: seq<byte>, remoteEid: nat) returns (seeds: seq<seq<byte>>)
    requires |storeKey| == KeyLength
    requires remoteEid < 0x1_0000_0000_0000_0000
    ensures seeds == PeerConfigSeeds(storeKey, remoteEid as u64)
  {
    var remoteEidBytes := new byte[EidWidth](_ => 0);
    WriteBigUInt64BE(remoteEidBytes, remoteEid as u64, 0);
    assert remoteEidBytes[..] == [] + BeBytes(remoteEid, EidWidth) + [];
    seeds := [PeerSeed, storeKey, remoteEidBytes[..]];
    assert seeds[2] == BeBytes(remoteEid as u64 as nat, EidWidth);
  }

  /**
   * Exactly three seeds: "Peer", the store key, and the endpoint id, which
   * reads back as `remoteEid`; none is longer than the per-seed bound.
   */
  lemma PeerConfigSeedsShape(storeKey: seq<byte>, remoteEid: u64)
    requires |storeKey| == KeyLength
    ensures var seeds := PeerConfigSeeds(storeKey, remoteEid);
      |seeds| == 3 && seeds[0] == [0x50, 0x65, 0x65, 0x72] && seeds[1] == storeKey &&
      |seeds[2]| == EidWidth && BeValue(seeds[2]) == remoteEid as nat &&
      forall i | 0 <= i < |seeds| :: |seeds[i]| <= MaxSeedLength
  {
    PeerSeedBytes();
    Pow256Widths();
    BeValueOfBytes(remoteEid as nat, EidWidth);
  }

  /** Different stores or different endpoints never share a seed list. */
  lemma PeerConfigSeedsInjective(key1: seq<byte>, eid1: u64, key2: seq<byte>, eid2: u64)
    requires PeerConfigSeeds(key1, eid1) == PeerConfigSeeds(key2, eid2)
    ensures key1 == key2 && eid1 == eid2
  {
    Pow256Widths();
    BeValueOfBytes(eid1 as nat, EidWidth);
    BeValueOfBytes(eid2 as nat, EidWidth);
  }

  /** A derived program address and the bump byte that produced it. */
  datatype ProgramAddress = ProgramAddress(address: seq<byte>, bump: byte)

  /** `PublicKey.findProgramAddressSync(seeds, programId)`; `None` when it throws. */
  type FindProgramAddress = (seq<seq<byte>>, seq<byte>) -> Option<ProgramAddress>

  /** The PeerConfig address, or `None` when the derivation throws. */
  function PeerConfigAddress(find: FindProgramAddress, programId: seq<byte>, storeKey: seq<byte>, remoteEid: u64): Option<seq<byte>> {
    match find(PeerConfigSeeds(storeKey, remoteEid), programId)
    case None => None
    case Some(pda) => Some(pda.address)
  }

  /**
   * `calculatePDAAddress`: build the seeds, hand them with the program id to
   * the derivation, and return the address it finds (the bump is dropped).
   */
  method CalculatePDAAddress(find: FindProgramAddress, programId: seq<byte>, storeKey: seq<byte>, remoteEid: nat)
    returns (pda: Option<seq<byte>>)
    requires |programId| == KeyLength && |storeKey| == KeyLength
    requires remoteEid < 0x1_0000_0000_0000_0000
    ensures pda == PeerConfigAddress(find, programId, storeKey, remoteEid as u64)
    ensures pda.Some? <==> find(PeerConfigSeeds(storeKey, remoteEid as u64), programId).Some?
  {
    var seeds := BuildPeerConfigSeeds(storeKey, remoteEid);
    var found := find(seeds, programId);
    pda := if found.Some? then Some(found.value.address) else None;
  }
}
