/**
 The wire fixtures of the 802.1X success scenario, as the hex strings the
 scenario feeds to the relay, and the identifier octets they carry.

 The supplicant replies are Ethernet frames: a 14-byte header (destination,
 source, ethertype 0x888e), a 4-byte EAPOL header, then the EAP packet, whose
 Identifier is its second octet, byte 19 of the frame. The RADIUS replies
 carry their Identifier in byte 1; byte 23 is the Identifier of the EAP
 packet inside their first attribute (an EAP-Message after the 20-byte RADIUS
 header). Only these octets are used; the frames are not parsed.
 */
module Fixtures {
  import RadiusId
  import EapId
  import opened Optional

  /** Ethernet header of the supplicant's frames: destination, source, ethertype 0x888e. */
  const SupplicantHeader: string := "000000000001" + "0242ac17006f" + "888e"

  // Each fixture below is split at its fields; the concatenation is the hex
  // text of the scenario, unchanged.

  /** EAP-Response/Identity "user": EAPOL header, then Code, Identifier, Length, Type, name. */
  const IdentityResponse: string :=
    SupplicantHeader + "01000009" + "02" + "74" + "0009" + "01" + "75736572"

  /** EAP-Response/MD5-Challenge: EAPOL header, then Code, Identifier, Length, Type, Value-Size, Value. */
  const Md5Response: string :=
    SupplicantHeader + "01000016" + "02" + "75" + "0016" + "04" + "10" + "3abcadc86714b2d75d09dd7ff53edf6b"

  /**
   RADIUS Access-Challenge: Code, Identifier, Length, Authenticator, then an
   EAP-Message holding an EAP-Request/MD5-Challenge, a Message-Authenticator
   and a State.
   */
  const AccessChallenge: string :=
    "0b" + "04" + "0050" + "e5e40d846576a2310755e906c4b2b506"
    + "4f18" + "01" + "75" + "0016" + "04" + "10" + "1a16a3baa37a0238f33384f6c1106742"
    + "5012" + "ce61ba97026b7a05b194a930a9224052"
    + "1812" + "6aa866456add628e3a55a4737872cad6"

  /**
   RADIUS Access-Accept: Code, Identifier, Length, Authenticator, then an
   EAP-Message holding an EAP-Success, a Message-Authenticator and a User-Name.
   */
  const AccessAccept: string :=
    "02" + "05" + "0032" + "fb4c4926caa21a02f74501a65c96f9c7"
    + "4f06" + "03" + "75" + "0004"
    + "5012" + "c060ca6a19c47d0998c7b20fd4d771c1"
    + "0106" + "75736572"

  /** Byte offset of the EAP Identifier in a supplicant frame: Ethernet header, EAPOL header, EAP Code. */
  const EapIdOffset: nat := 14 + 4 + 1

  /** Byte offset of the Identifier in a RADIUS packet, after the Code. */
  const RadiusIdOffset: nat := 1

  /** Byte offset of the Identifier of the EAP packet in a RADIUS reply's first attribute. */
  const EmbeddedEapIdOffset: nat := 20 + 2 + 1

  predicate IsHexDigit(ch: char) {
    '0' <= ch <= '9' || 'a' <= ch <= 'f' || 'A' <= ch <= 'F'
  }

  function HexValue(ch: char): (v: int)
    requires IsHexDigit(ch)
    ensures 0 <= v < 16
  {
    if '0' <= ch <= '9' then ch as int - '0' as int
    else if 'a' <= ch <= 'f' then ch as int - 'a' as int + 10
    else ch as int - 'A' as int + 10
  }

  /** The `i`-th byte of the hex string `hex`, if it has one. */
  function ByteAt(hex: string, i: nat): (b: Option<int>)
    ensures b.Some? <==> 2 * i + 1 < |hex| && IsHexDigit(hex[2 * i]) && IsHexDigit(hex[2 * i + 1])
    ensures b.Some? ==> 0 <= b.value < 256
  {
    if 2 * i + 1 < |hex| && IsHexDigit(hex[2 * i]) && IsHexDigit(hex[2 * i + 1]) then
      Some(16 * HexValue(hex[2 * i]) + HexValue(hex[2 * i + 1]))
    else
      None
  }

  // The identifier octets of each fixture, read off the hex text.

  lemma IdentityResponseId()
    ensures ByteAt(IdentityResponse, EapIdOffset) == Some(0x74)
  {
  }

  lemma Md5ResponseId()
    ensures ByteAt(Md5Response, EapIdOffset) == Some(0x75)
  {
  }

  lemma AccessChallengeIds()
    ensures ByteAt(AccessChallenge, RadiusIdOffset) == Some(0x04)
    ensures ByteAt(AccessChallenge, EmbeddedEapIdOffset) == Some(0x75)
  {
  }

  lemma AccessAcceptIds()
    ensures ByteAt(AccessAccept, RadiusIdOffset) == Some(0x05)
    ensures ByteAt(AccessAccept, EmbeddedEapIdOffset) == Some(0x75)
  {
  }

  /**
   With the state machine starting without an identifier and each result
   stored as `currentId`, the first two EAP identifiers are the ones the
   supplicant replies carry. The EAP packets inside both RADIUS replies
   carry the second one as well.
   */
  lemma EapFixtureIdentifiers<T>(sm: EapId.StateMachine<T>, draws: seq<int>)
    requires EapId.AllDraws(draws) && |draws| >= 2
    requires sm.currentId.None?
    ensures ByteAt(IdentityResponse, EapIdOffset) == Some(EapId.Series(sm, draws)[0])
    ensures ByteAt(Md5Response, EapIdOffset) == Some(EapId.Series(sm, draws)[1])
    ensures ByteAt(AccessChallenge, EmbeddedEapIdOffset) == Some(EapId.Series(sm, draws)[1])
    ensures ByteAt(AccessAccept, EmbeddedEapIdOffset) == Some(EapId.Series(sm, draws)[1])
  {
  }

  /**
   With the RADIUS counter starting unset, the first two RADIUS identifiers
   are the ones the RADIUS replies carry, in order.
   */
  lemma RadiusFixtureIdentifiers<T>(relay: RadiusId.Relay<T>)
    requires relay.radiusId == RadiusId.Unset
    ensures |RadiusId.Issued(relay, 2)| == 2
    ensures ByteAt(AccessChallenge, RadiusIdOffset) == Some(RadiusId.Issued(relay, 2)[0])
    ensures ByteAt(AccessAccept, RadiusIdOffset) == Some(RadiusId.Issued(relay, 2)[1])
  {
  }
}
