/**
  Commands of the seed generator: their bytes, the messages to_proto makes of them,
  and how both relate to the C++ marshaller and to the session layer.
 */
module SeedCommands {
  import opened Bytes
  import opened CommandLayout
  import opened SeedMessages
  import opened SeedParsers
  import opened SeedTypes
  import opened Tpm2
  import Marshalling
  import SessionLayer
  import StartAuthSession

  // Enum fields of a message hold 32-bit signed values; others raise ValueError.
  const ENUM_LIMIT := 0x8000_0000

  // ---------------------------------------------------------------------------
  // CreatePrimary
  // ---------------------------------------------------------------------------

  datatype CreatePrimary = CreatePrimary(
    hierarchy: int, sessions: seq<AuthCommand>, sensitive: SensitiveCreate, public: PublicArea,
    outsideInfo: bytes, pcrs: seq<PcrSelection>)

  function CreatePrimaryParams(c: CreatePrimary): Option<bytes> {
    var hierarchy :- ToBytes(c.hierarchy, 4);
    var area :- AuthAreaBytes(c.sessions);
    var sensitive :- SensitiveCreateBytes(c.sensitive);
    var public :- PublicBytes(c.public);
    var info :- Tpm2bBytes(c.outsideInfo);
    var pcrs :- PcrListBytes(c.pcrs);
    Some(hierarchy + area + sensitive + public + info + pcrs)
  }

  datatype CreatePrimaryMessage = CreatePrimaryMessage(
    hierarchy: nat, sessions: seq<SeedSession>, inSensitive: SeedSensitive, inPublic: SeedPublic,
    outsideInfo: bytes, creationPcr: SeedPcrList)

  /** TPMCreatePrimary.to_proto on the concatenated parameters. */
  function CreatePrimaryToProto(tag: int, params: bytes): Option<CreatePrimaryMessage> {
    var off := if tag == ST_NO_SESSIONS then 4 else 8 + IntAt(params, 4, 4);
    var sessions :- if tag == ST_NO_SESSIONS then Some([]) else SessionsFrom(Slice(params, 4, off), 4);
    var inSensitive := ParseTpm2b(params, off);
    var inPublic := ParseTpm2b(params, inSensitive.end);
    var outsideInfo := ParseTpm2b(params, inPublic.end);
    var public :- ProtoPublic(inPublic.field);
    var pcrs :- PcrList(Slice(params, outsideInfo.end, |params|));
    if IntAt(params, 0, 4) >= ENUM_LIMIT then None
    else
      Some(CreatePrimaryMessage(IntAt(params, 0, 4), sessions, ProtoSensitiveCreate(inSensitive.field), public,
                                Payload(outsideInfo.field), pcrs))
  }

  /** A handle and an authorization area at the front of the parameters. */
  lemma HandleAndArea(b: bytes, handle: int, sessions: seq<AuthCommand>, rest: bytes)
    requires ToBytes(handle, 4).Some? && AuthAreaBytes(sessions).Some?
    requires b == ToBytes(handle, 4).value + (AuthAreaBytes(sessions).value + rest)
    ensures var off := 8 + IntAt(b, 4, 4);
            && IntAt(b, 0, 4) == handle && Slice(b, 4, off) == AuthAreaBytes(sessions).value
            && off <= |b| && b[off..] == rest
  {
    hide IntAt, Slice, ToBytes, AuthCommandsBytes;
    var area, body := AuthAreaBytes(sessions).value, AuthCommandsBytes(sessions).value;
    assert b[0..] == b;
    IntThere(b, 0, handle, 4, area + rest);
    assert area + rest == ToBytes(|body|, 4).value + (body + rest);
    FourBytes(|body|);
    IntThere(b, 4, |body|, 4, body + rest);
    Advance(b, 4, area, rest);
  }

  /** Three TPM2Bs in a row, and what follows them. */
  lemma ThreeFields(b: bytes, off: nat, x: bytes, y: bytes, z: bytes, rest: bytes)
    requires Tpm2bBytes(x).Some? && Tpm2bBytes(y).Some? && Tpm2bBytes(z).Some? && off <= |b|
    requires b[off..] == Tpm2bBytes(x).value + (Tpm2bBytes(y).value + (Tpm2bBytes(z).value + rest))
    ensures var s := ParseTpm2b(b, off);
            var p := ParseTpm2b(b, s.end);
            var o := ParseTpm2b(b, p.end);
            && s.field == Tpm2bBytes(x).value && p.field == Tpm2bBytes(y).value && Payload(o.field) == z
            && Slice(b, o.end, |b|) == rest
  {
    hide IntAt, ToBytes, Tpm2bBytes, ParseTpm2b, Payload;
    var u, v, w := Tpm2bBytes(x).value, Tpm2bBytes(y).value, Tpm2bBytes(z).value;
    Tpm2bThere(b, off, x, v + (w + rest));
    Tpm2bThere(b, off + |u|, y, w + rest);
    Tpm2bThere(b, off + |u| + |v|, z, rest);
    PayloadOf(w);
    assert Slice(b, off + |u| + |v| + |w|, |b|) == b[off + |u| + |v| + |w|..];
  }

  /** The pieces of the parameters lie where to_proto looks for them. */
  lemma CreatePrimaryPieces(c: CreatePrimary)
    requires CreatePrimaryParams(c).Some?
    ensures var b := CreatePrimaryParams(c).value;
            var off := 8 + IntAt(b, 4, 4);
            var s := ParseTpm2b(b, off);
            var p := ParseTpm2b(b, s.end);
            var o := ParseTpm2b(b, p.end);
            && IntAt(b, 0, 4) == c.hierarchy && Slice(b, 4, off) == AuthAreaBytes(c.sessions).value
            && s.field == SensitiveCreateBytes(c.sensitive).value && p.field == PublicBytes(c.public).value
            && Payload(o.field) == c.outsideInfo && Slice(b, o.end, |b|) == PcrListBytes(c.pcrs).value
  {
    hide IntAt, Slice, ToBytes, Tpm2bBytes, AuthAreaBytes, PublicAreaBytes, ParseTpm2b, PcrListBytes, Payload;
    var b := CreatePrimaryParams(c).value;
    var h, area, sens, pub := ToBytes(c.hierarchy, 4).value, AuthAreaBytes(c.sessions).value,
                              SensitiveCreateBytes(c.sensitive).value, PublicBytes(c.public).value;
    var info, pcrs := Tpm2bBytes(c.outsideInfo).value, PcrListBytes(c.pcrs).value;
    Regroup5(h, area, sens, pub, info, pcrs);
    HandleAndArea(b, c.hierarchy, c.sessions, sens + (pub + (info + pcrs)));
    var ua, d := Tpm2bBytes(c.sensitive.userAuth).value, Tpm2bBytes(c.sensitive.data).value;
    ThreeFields(b, 8 + IntAt(b, 4, 4), ua + d, PublicAreaBytes(c.public).value, c.outsideInfo, pcrs);
  }

  lemma PayloadOf(field: bytes)
    requires 2 <= |field|
    ensures Payload(field) == field[2..]
  {
  }

  /**
    TPMCreatePrimary.to_proto recovers the hierarchy, every session, the sensitive
    data, the outside info and the PCR list; and the public area exactly when
    nothing in its encoding is misread.
   */
  lemma CreatePrimaryRoundTrip(c: CreatePrimary)
    requires CreatePrimaryParams(c).Some?
    ensures 0 <= c.hierarchy && AuthCommandsBytes(c.sessions).Some? && PcrListBytes(c.pcrs).Some?
    ensures PublicBytes(c.public).Some? && ProtoPublic(PublicBytes(c.public).value).Some?
    ensures CreatePrimaryToProto(ST_SESSIONS, CreatePrimaryParams(c).value) ==
            if c.hierarchy >= 0x8000_0000 then None
            else Some(CreatePrimaryMessage(c.hierarchy, SeedSessions(c.sessions), SeedSensitiveOf(c.sensitive),
                                           ProtoPublic(PublicBytes(c.public).value).value, c.outsideInfo,
                                           SeedPcrs(c.pcrs)))
    ensures ProtoPublic(PublicBytes(c.public).value).value == SeedPublicOf(c.public)
            <==> !HashEncoded(c.public) || Coincides(c.public)
  {
    hide IntAt, Slice, ToBytes, Tpm2bBytes, AuthAreaBytes, PublicBytes, ParseTpm2b, PcrListBytes, Payload,
         SessionsFrom, ProtoPublic, PcrList, ProtoSensitiveCreate, SensitiveCreateBytes, SeedPublicOf,
         SeedSensitiveOf, HashEncoded, Coincides, SeedPcrs, SeedSessions, CreatePrimaryToProto,
         CreatePrimaryParams, AuthCommandsBytes, PcrSelectionsBytes, PublicAreaBytes;
    ComponentsExist(c);
    CreatePrimaryPieces(c);
    SessionsInvert(c.sessions);
    SensitiveInverts(c.sensitive);
    PublicInvertsExactly(c.public);
    PublicIsRead(c.public);
    PcrListInverts(c.pcrs);
    MessageOfPieces(CreatePrimaryParams(c).value, AuthAreaBytes(c.sessions).value, PublicBytes(c.public).value,
                    PcrListBytes(c.pcrs).value);
  }

  lemma {:induction false} SessionIsAt(cs: seq<AuthCommand>, i: nat)
    requires AuthCommandsBytes(cs).Some? && i < |cs|
    ensures var s, c := SeedSessions(cs)[i], cs[i];
            && s.handle == c.sessionHandle && s.nonce == c.nonce && s.attributes == c.attributes && s.hmac == c.hmac
            && s.nonceSize == |c.nonce| && s.hmacSize == |c.hmac|
  {
    if i == 0 {
      SessionFields(cs[0]);
    } else {
      SessionIsAt(cs[1..], i - 1);
    }
  }

  lemma {:induction false} PcrIsAt(ss: seq<PcrSelection>, i: nat)
    requires PcrSelectionsBytes(ss).Some? && i < |ss|
    ensures |SeedPcrSeq(ss)| == |ss|
    ensures var p, s := SeedPcrSeq(ss)[i], ss[i];
            p.hash == s.hash && p.select == s.select && p.sizeofSelect == |s.select|
  {
    hide PcrSelectionBytes;
    PcrCount(ss);
    if i == 0 {
      PcrFields(ss[0]);
    } else {
      PcrIsAt(ss[1..], i - 1);
    }
  }

  lemma {:induction false} PcrCount(ss: seq<PcrSelection>)
    requires PcrSelectionsBytes(ss).Some?
    ensures |SeedPcrSeq(ss)| == |ss|
  {
    hide PcrSelectionBytes;
    if |ss| != 0 {
      PcrCount(ss[1..]);
    }
  }

  lemma PcrFields(s: PcrSelection)
    requires PcrSelectionBytes(s).Some?
    ensures SeedPcrOf(s).hash == s.hash && SeedPcrOf(s).select == s.select && SeedPcrOf(s).sizeofSelect == |s.select|
  {
    TwoBytes(s.hash);
  }

  lemma SessionsRecovered(cs: seq<AuthCommand>)
    requires AuthCommandsBytes(cs).Some?
    ensures forall i | 0 <= i < |cs| ::
              var s, c := SeedSessions(cs)[i], cs[i];
              && s.handle == c.sessionHandle && s.nonce == c.nonce && s.attributes == c.attributes && s.hmac == c.hmac
              && s.nonceSize == |c.nonce| && s.hmacSize == |c.hmac|
  {
    hide SeedSessions, AuthCommandsBytes;
    forall i | 0 <= i < |cs|
      ensures var s, c := SeedSessions(cs)[i], cs[i];
              && s.handle == c.sessionHandle && s.nonce == c.nonce && s.attributes == c.attributes && s.hmac == c.hmac
              && s.nonceSize == |c.nonce| && s.hmacSize == |c.hmac|
    {
      SessionIsAt(cs, i);
    }
  }

  lemma PcrsRecovered(ss: seq<PcrSelection>)
    requires PcrListBytes(ss).Some?
    ensures var r := SeedPcrs(ss);
            && r.count == |r.selections| == |ss|
            && forall i | 0 <= i < |ss| ::
                 && r.selections[i].hash == ss[i].hash && r.selections[i].select == ss[i].select
                 && r.selections[i].sizeofSelect == |ss[i].select|
  {
    hide SeedPcrSeq, PcrSelectionsBytes;
    PcrsExist(ss);
    PcrCount(ss);
    forall i | 0 <= i < |ss|
      ensures SeedPcrSeq(ss)[i].hash == ss[i].hash && SeedPcrSeq(ss)[i].select == ss[i].select
      ensures SeedPcrSeq(ss)[i].sizeofSelect == |ss[i].select|
    {
      PcrIsAt(ss, i);
    }
  }

  /** _proto_public recovers every field a message has a place for, unless a scheme hash is encoded. */
  lemma PublicRecovered(p: PublicArea, encoded: bytes, r: SeedPublic)
    requires PublicBytes(p) == Some(encoded) && ProtoPublic(encoded) == Some(r)
    requires p.kind == 0x1 && p.rsa.Some? ==> p.rsa.value.scheme == 0x10 || p.rsa.value.schemeHash.None?
    requires p.kind == 0x8 && p.keyedHash.Some? ==> p.keyedHash.value.scheme != 0x5 || p.keyedHash.value.hashAlg.None?
    ensures r.kind == p.kind && r.nameAlg == p.nameAlg && r.attributes == p.attributes
    ensures r.authPolicy == p.authPolicy && r.authPolicySize == |p.authPolicy| && r.unique == p.unique
    ensures r.size + 2 == |encoded|
    ensures p.kind == 0x1 || p.kind == 0x8
    ensures p.kind == 0x1 ==>
              && p.rsa.Some?
              && var rsa := p.rsa.value;
              r.parms == SeedRsa(rsa.symmetric.algorithm, rsa.scheme, rsa.keyBits, rsa.exponent)
    ensures p.kind == 0x8 ==>
              r.parms == SeedKeyedHash(if p.keyedHash.Some? then p.keyedHash.value.scheme else 0x10)
  {
    hide PublicBytes, PublicAreaBytes, ProtoPublic, ParmsBytes, Coincides;
    PublicInvertsExactly(p);
    PublicFields(p);
    PublicHead(p);
    PublicSizeIs(p);
  }

  lemma PublicSizeIs(p: PublicArea)
    requires PublicBytes(p).Some?
    ensures PublicAreaBytes(p).Some? && |PublicBytes(p).value| == 2 + |PublicAreaBytes(p).value|
  {
    hide PublicAreaBytes;
    ToBytesStores(|PublicAreaBytes(p).value|);
  }


  /** Without sessions there is no area, and the fields start behind the handle. */
  lemma CreatePrimaryWithoutSessions(c: CreatePrimary, b: bytes)
    requires CreatePrimaryParams(c).Some? && c.hierarchy < 0x8000_0000
    requires b == ToBytes(c.hierarchy, 4).value
                  + (SensitiveCreateBytes(c.sensitive).value
                     + (PublicBytes(c.public).value + (Tpm2bBytes(c.outsideInfo).value + PcrListBytes(c.pcrs).value)))
    ensures 0 <= c.hierarchy && ProtoPublic(PublicBytes(c.public).value).Some?
    ensures CreatePrimaryToProto(0x8001, b) ==
            Some(CreatePrimaryMessage(c.hierarchy, [], SeedSensitiveOf(c.sensitive),
                                      ProtoPublic(PublicBytes(c.public).value).value, c.outsideInfo, SeedPcrs(c.pcrs)))
  {
    hide IntAt, Slice, ToBytes, Tpm2bBytes, AuthAreaBytes, PublicAreaBytes, ParseTpm2b, PcrListBytes, Payload,
         ProtoPublic, PcrList, ProtoSensitiveCreate, SeedSensitiveOf, SeedPcrs;
    var h, sens := ToBytes(c.hierarchy, 4).value, SensitiveCreateBytes(c.sensitive).value;
    var pub := PublicBytes(c.public).value;
    var info, pcrs := Tpm2bBytes(c.outsideInfo).value, PcrListBytes(c.pcrs).value;
    assert b[0..] == b;
    IntThere(b, 0, c.hierarchy, 4, sens + (pub + (info + pcrs)));
    var ua, d := Tpm2bBytes(c.sensitive.userAuth).value, Tpm2bBytes(c.sensitive.data).value;
    ThreeFields(b, 4, ua + d, PublicAreaBytes(c.public).value, c.outsideInfo, pcrs);
    SensitiveInverts(c.sensitive);
    PublicIsRead(c.public);
    PcrListInverts(c.pcrs);
    FourBytes(c.hierarchy);
  }

  /** The same, field by field: what a message made from the parameters holds. */
  lemma CreatePrimaryRecovers(c: CreatePrimary)
    requires CreatePrimaryParams(c).Some? && c.hierarchy < 0x8000_0000
    ensures CreatePrimaryToProto(0x8002, CreatePrimaryParams(c).value).Some?
    ensures PublicBytes(c.public).Some?
    ensures var m := CreatePrimaryToProto(0x8002, CreatePrimaryParams(c).value).value;
            && m.hierarchy == c.hierarchy && m.outsideInfo == c.outsideInfo && |m.sessions| == |c.sessions|
            && (forall i | 0 <= i < |c.sessions| ::
                  && m.sessions[i].handle == c.sessions[i].sessionHandle && m.sessions[i].nonce == c.sessions[i].nonce
                  && m.sessions[i].attributes == c.sessions[i].attributes && m.sessions[i].hmac == c.sessions[i].hmac
                  && m.sessions[i].nonceSize == |c.sessions[i].nonce| && m.sessions[i].hmacSize == |c.sessions[i].hmac|)
            && m.inSensitive.userAuth == c.sensitive.userAuth && m.inSensitive.userAuthSize == |c.sensitive.userAuth|
            && m.inSensitive.data == c.sensitive.data && m.inSensitive.dataSize == |c.sensitive.data|
            && m.inSensitive.size == 4 + |c.sensitive.userAuth| + |c.sensitive.data|
            && m.creationPcr.count == |m.creationPcr.selections| == |c.pcrs|
            && (forall i | 0 <= i < |c.pcrs| ::
                  && m.creationPcr.selections[i].hash == c.pcrs[i].hash
                  && m.creationPcr.selections[i].select == c.pcrs[i].select
                  && m.creationPcr.selections[i].sizeofSelect == |c.pcrs[i].select|)
            && Some(m.inPublic) == ProtoPublic(PublicBytes(c.public).value)
  {
    hide ToBytes, Tpm2bBytes, AuthAreaBytes, PublicBytes, PcrListBytes, SensitiveCreateBytes,
         CreatePrimaryToProto, CreatePrimaryParams, AuthCommandsBytes, ProtoPublic, SeedSessions, SeedPcrs,
         SeedPublicOf, HashEncoded, Coincides;
    CreatePrimaryRoundTrip(c);
    SessionsRecovered(c.sessions);
    PcrsRecovered(c.pcrs);
  }

  lemma PcrsExist(ss: seq<PcrSelection>)
    requires PcrListBytes(ss).Some?
    ensures PcrSelectionsBytes(ss).Some? && SeedPcrs(ss) == SeedPcrList(|ss|, SeedPcrSeq(ss))
  {
  }

  /** The message, once the pieces have been cut out. */
  lemma MessageOfPieces(b: bytes, area: bytes, public: bytes, pcrs: bytes)
    requires var off := 8 + IntAt(b, 4, 4);
             var s := ParseTpm2b(b, off);
             var p := ParseTpm2b(b, s.end);
             var o := ParseTpm2b(b, p.end);
             Slice(b, 4, off) == area && p.field == public && Slice(b, o.end, |b|) == pcrs
    requires SessionsFrom(area, 4).Some? && ProtoPublic(public).Some? && PcrList(pcrs).Some?
    ensures var s := ParseTpm2b(b, 8 + IntAt(b, 4, 4));
            var o := ParseTpm2b(b, ParseTpm2b(b, s.end).end);
            CreatePrimaryToProto(ST_SESSIONS, b) ==
            if IntAt(b, 0, 4) >= ENUM_LIMIT then None
            else Some(CreatePrimaryMessage(IntAt(b, 0, 4), SessionsFrom(area, 4).value, ProtoSensitiveCreate(s.field),
                                           ProtoPublic(public).value, Payload(o.field), PcrList(pcrs).value))
  {
    hide IntAt, Slice, ParseTpm2b, SessionsFrom, ProtoPublic, PcrList, ProtoSensitiveCreate, Payload;
  }

  lemma ComponentsExist(c: CreatePrimary)
    requires CreatePrimaryParams(c).Some?
    ensures AuthAreaBytes(c.sessions).Some? && AuthCommandsBytes(c.sessions).Some?
    ensures SensitiveCreateBytes(c.sensitive).Some? && PublicBytes(c.public).Some? && PcrListBytes(c.pcrs).Some?
  {
  }

  /** Any public area the generator can encode is read as something. */
  lemma PublicIsRead(p: PublicArea)
    requires PublicBytes(p).Some?
    ensures ProtoPublic(PublicBytes(p).value).Some?
  {
    PublicFields(p);
    if p.kind == ALG_RSA {
      RsaInverse(p);
    } else {
      KeyedHashInverse(p);
    }
  }

  // ---------------------------------------------------------------------------
  // NV_DefineSpace
  // ---------------------------------------------------------------------------

  datatype NvDefineSpace =
    NvDefineSpace(hierarchy: int, sessions: seq<AuthCommand>, auth: bytes, public: NvPublic)

  function NvDefineSpaceParams(c: NvDefineSpace): Option<bytes> {
    var hierarchy :- ToBytes(c.hierarchy, 4);
    var area :- AuthAreaBytes(c.sessions);
    var auth :- Tpm2bBytes(c.auth);
    var public :- NvPublicBytes(c.public);
    Some(hierarchy + area + auth + public)
  }

  datatype NvMessage = NvMessage(authHandle: nat, sessions: seq<SeedSession>, auth: bytes, public: NvPublic)

  /** The algorithm identifiers that have a name; looking up any other raises. */
  predicate NamedAlg(alg: nat) {
    alg in {0, 0x1, 0x4, 0x5, 0x6, 0x8, 0xB, 0xC, 0x10, 0x14, 0x15, 0x17, 0x43}
  }

  function NvDefineSpaceToProto(tag: int, params: bytes): Option<NvMessage> {
    var off := if tag == ST_NO_SESSIONS then 4 else 8 + IntAt(params, 4, 4);
    var sessions :- if tag == ST_NO_SESSIONS then Some([]) else SessionsFrom(Slice(params, 4, off), 4);
    var auth := ParseTpm2b(params, off);
    var nv := Payload(ParseTpm2b(params, auth.end).field);
    var policySize := IntAt(nv, 10, 2);
    if !NamedAlg(IntAt(nv, 4, 2)) then None
    else
      Some(NvMessage(IntAt(params, 0, 4), sessions, Payload(auth.field),
                     NvPublic(IntAt(nv, 0, 4), IntAt(nv, 4, 2), IntAt(nv, 6, 4), Slice(nv, 12, 12 + policySize),
                              IntAt(nv, 12 + policySize, 2))))
  }

  lemma NvPublicThere(p: NvPublic)
    requires NvPublicBytes(p).Some?
    ensures var nv := Payload(NvPublicBytes(p).value);
            && IntAt(nv, 0, 4) == p.nvIndex && IntAt(nv, 4, 2) == p.nameAlg && IntAt(nv, 6, 4) == p.attributes
            && IntAt(nv, 10, 2) == |p.authPolicy| && Slice(nv, 12, 12 + |p.authPolicy|) == p.authPolicy
            && IntAt(nv, 12 + |p.authPolicy|, 2) == p.dataSize
  {
    hide IntAt, ToBytes, Tpm2bBytes;
    var index, name, attrs := ToBytes(p.nvIndex, 4).value, ToBytes(p.nameAlg, 2).value, ToBytes(p.attributes, 4).value;
    var policy, size := Tpm2bBytes(p.authPolicy).value, ToBytes(p.dataSize, 2).value;
    var nv, whole := index + name + attrs + policy + size, NvPublicBytes(p).value;
    Regroup4(index, name, attrs, policy, size);
    assert whole[0..] == whole + [] && nv[0..] == nv && size == size + [];
    Tpm2bThere(whole, 0, nv, []);
    PayloadOf(whole);
    IntThere(nv, 0, p.nvIndex, 4, name + (attrs + (policy + size)));
    IntThere(nv, 4, p.nameAlg, 2, attrs + (policy + size));
    IntThere(nv, 6, p.attributes, 4, policy + size);
    Tpm2bThere(nv, 10, p.authPolicy, size);
    IntThere(nv, 12 + |p.authPolicy|, p.dataSize, 2, []);
  }

  /** TPMNVDefineSpace.to_proto recovers every field, if the name algorithm has a name. */
  lemma NvDefineSpaceRoundTrip(c: NvDefineSpace)
    requires NvDefineSpaceParams(c).Some?
    ensures 0 <= c.public.nameAlg && 0 <= c.hierarchy
    ensures NvDefineSpaceToProto(ST_SESSIONS, NvDefineSpaceParams(c).value) ==
            if c.public.nameAlg in {0x0, 0x1, 0x4, 0x5, 0x6, 0x8, 0xB, 0xC, 0x10, 0x14, 0x15, 0x17, 0x43}
            then Some(NvMessage(c.hierarchy, SeedSessions(c.sessions), c.auth, c.public)) else None
  {
    hide IntAt, ToBytes, Tpm2bBytes, AuthCommandsBytes, ParseTpm2b, Payload, SessionsFrom, SeedSessions;
    var b := NvDefineSpaceParams(c).value;
    var h, area, auth, pub := ToBytes(c.hierarchy, 4).value, AuthAreaBytes(c.sessions).value,
                              Tpm2bBytes(c.auth).value, NvPublicBytes(c.public).value;
    assert h + area + auth + pub == h + (area + (auth + pub));
    HandleAndArea(b, c.hierarchy, c.sessions, auth + pub);
    var off := 8 + IntAt(b, 4, 4);
    Tpm2bThere(b, off, c.auth, pub);
    PayloadOf(auth);
    NvFieldThere(b, off + |auth|, c.public);
    SessionsInvert(c.sessions);
    NvPublicThere(c.public);
    FourBytes(c.hierarchy);
    TwoBytes(c.public.nameAlg);
  }

  /** Without sessions there is no area, and the fields start behind the handle. */
  lemma NvDefineSpaceWithoutSessions(c: NvDefineSpace, b: bytes)
    requires NvDefineSpaceParams(c).Some? && c.public.nameAlg == 0x000B
    requires b == ToBytes(c.hierarchy, 4).value + (Tpm2bBytes(c.auth).value + NvPublicBytes(c.public).value)
    ensures 0 <= c.hierarchy
    ensures NvDefineSpaceToProto(0x8001, b) == Some(NvMessage(c.hierarchy, [], c.auth, c.public))
  {
    hide IntAt, ToBytes, Tpm2bBytes, AuthCommandsBytes, ParseTpm2b, Payload, NvPublicBytes;
    var h, auth, pub := ToBytes(c.hierarchy, 4).value, Tpm2bBytes(c.auth).value, NvPublicBytes(c.public).value;
    assert b[0..] == b;
    IntThere(b, 0, c.hierarchy, 4, auth + pub);
    Tpm2bThere(b, 4, c.auth, pub);
    PayloadOf(auth);
    NvFieldThere(b, 4 + |auth|, c.public);
    NvPublicThere(c.public);
    FourBytes(c.hierarchy);
  }

  lemma NvFieldThere(b: bytes, off: nat, p: NvPublic)
    requires NvPublicBytes(p).Some? && off <= |b| && b[off..] == NvPublicBytes(p).value
    ensures ParseTpm2b(b, off).field == NvPublicBytes(p).value
  {
    hide ToBytes, ParseTpm2b, Tpm2bBytes;
    var inner := ToBytes(p.nvIndex, 4).value + ToBytes(p.nameAlg, 2).value + ToBytes(p.attributes, 4).value
                 + Tpm2bBytes(p.authPolicy).value + ToBytes(p.dataSize, 2).value;
    assert NvPublicBytes(p).value == NvPublicBytes(p).value + [];
    Tpm2bThere(b, off, inner, []);
  }

  // ---------------------------------------------------------------------------
  // StartAuthSession
  // ---------------------------------------------------------------------------

  datatype StartAuth = StartAuth(
    tpmKey: int, bind: int, nonce: bytes, salt: bytes, sessionType: int, symmetric: SymDef, authHash: int)

  /** The salt is given as a TPM2B. */
  function StartAuthParams(s: StartAuth): Option<bytes> {
    var key :- ToBytes(s.tpmKey, 4);
    var bind :- ToBytes(s.bind, 4);
    var nonce :- Tpm2bBytes(s.nonce);
    var salt :- Tpm2bBytes(s.salt);
    var kind :- ToBytes(s.sessionType, 1);
    var sym :- SymDefBytes(s.symmetric);
    var hash :- ToBytes(s.authHash, 2);
    Some(key + bind + nonce + salt + kind + sym + hash)
  }

  function StartAuthBytes(s: StartAuth): Option<bytes> {
    var params :- StartAuthParams(s);
    CommandBytes(SeedCommand(ST_NO_SESSIONS, CC_START_AUTH_SESSION, params))
  }

  datatype StartAuthMessage = StartAuthMessage(
    tpmKey: nat, bind: nat, nonce: bytes, salt: bytes, sessionType: byte, symmetric: SymDef, authHash: nat)

  predicate NamedSessionType(kind: byte) {
    kind in {0, 1, 3}
  }

  /** TPMStartAuthSession.to_proto; without a symmetric algorithm, mode is ALG_NULL. */
  function StartAuthToProto(b: bytes): Option<StartAuthMessage> {
    var nonceEnd := 10 + IntAt(b, 8, 2);
    var saltEnd := nonceEnd + 2 + IntAt(b, nonceEnd, 2);
    if saltEnd >= |b| then None
    else
      var alg := IntAt(b, saltEnd + 1, 2);
      var sym := if alg == ALG_NULL then SymDef(alg, 0, ALG_NULL)
                 else SymDef(alg, IntAt(b, saltEnd + 3, 2), IntAt(b, saltEnd + 5, 2));
      var hash := IntAt(b, if alg == ALG_NULL then saltEnd + 3 else saltEnd + 7, 2);
      if !NamedSessionType(b[saltEnd]) || !NamedAlg(alg) || !NamedAlg(sym.mode) || !NamedAlg(hash)
         || IntAt(b, 0, 4) >= ENUM_LIMIT || IntAt(b, 4, 4) >= ENUM_LIMIT
      then None
      else
        Some(StartAuthMessage(IntAt(b, 0, 4), IntAt(b, 4, 4), Slice(b, 10, nonceEnd),
                              Slice(b, nonceEnd + 2, saltEnd), b[saltEnd], sym, hash))
  }

  /** A symmetric definition as a message holds it. */
  function SymMessage(s: SymDef): SymDef {
    if s.algorithm == ALG_NULL then SymDef(ALG_NULL, 0, ALG_NULL) else s
  }

  lemma Regroup6(a: bytes, b: bytes, c: bytes, d: bytes, e: bytes, f: bytes, g: bytes)
    ensures a + b + c + d + e + f + g == a + (b + (c + (d + (e + (f + g)))))
  {
  }

  lemma StartAuthHead(b: bytes, tpmKey: int, bind: int, nonce: bytes, rest: bytes)
    requires ToBytes(tpmKey, 4).Some? && ToBytes(bind, 4).Some? && Tpm2bBytes(nonce).Some?
    requires b == ToBytes(tpmKey, 4).value + (ToBytes(bind, 4).value + (Tpm2bBytes(nonce).value + rest))
    ensures IntAt(b, 0, 4) == tpmKey && IntAt(b, 4, 4) == bind && IntAt(b, 8, 2) == |nonce|
    ensures Slice(b, 10, 10 + |nonce|) == nonce && 10 + |nonce| <= |b| && b[10 + |nonce|..] == rest
  {
    hide IntAt, Slice, ToBytes, Tpm2bBytes;
    var k, h, n := ToBytes(tpmKey, 4).value, ToBytes(bind, 4).value, Tpm2bBytes(nonce).value;
    assert b[0..] == b;
    IntThere(b, 0, tpmKey, 4, h + (n + rest));
    IntThere(b, 4, bind, 4, n + rest);
    Tpm2bThere(b, 8, nonce, rest);
  }

  lemma StartAuthMiddle(b: bytes, off: nat, salt: bytes, sessionType: int, rest: bytes)
    requires Tpm2bBytes(salt).Some? && ToBytes(sessionType, 1).Some?
    requires At(b, off, Tpm2bBytes(salt).value, ToBytes(sessionType, 1).value + rest)
    ensures var end := off + 2 + |salt|;
            && IntAt(b, off, 2) == |salt| && Slice(b, off + 2, end) == salt
            && end < |b| && b[end] == sessionType && b[end + 1..] == rest
  {
    hide IntAt, Slice, ToBytes, Tpm2bBytes;
    Tpm2bThere(b, off, salt, ToBytes(sessionType, 1).value + rest);
    ByteThere(b, off + 2 + |salt|, sessionType, rest);
  }

  lemma StartAuthThere(s: StartAuth)
    requires StartAuthParams(s).Some?
    ensures var b := StartAuthParams(s).value;
            var saltEnd := 12 + |s.nonce| + |s.salt|;
            && IntAt(b, 0, 4) == s.tpmKey && IntAt(b, 4, 4) == s.bind && IntAt(b, 8, 2) == |s.nonce|
            && Slice(b, 10, 10 + |s.nonce|) == s.nonce && IntAt(b, 10 + |s.nonce|, 2) == |s.salt|
            && Slice(b, 12 + |s.nonce|, saltEnd) == s.salt && saltEnd < |b| && b[saltEnd] == s.sessionType
            && At(b, saltEnd + 1, SymDefBytes(s.symmetric).value, ToBytes(s.authHash, 2).value)
  {
    hide IntAt, Slice, ToBytes, Tpm2bBytes, SymDefBytes;
    var key, bind, nonce, salt := ToBytes(s.tpmKey, 4).value, ToBytes(s.bind, 4).value, Tpm2bBytes(s.nonce).value,
                                  Tpm2bBytes(s.salt).value;
    var kind, sym, hash := ToBytes(s.sessionType, 1).value, SymDefBytes(s.symmetric).value,
                          ToBytes(s.authHash, 2).value;
    var b := StartAuthParams(s).value;
    Regroup6(key, bind, nonce, salt, kind, sym, hash);
    StartAuthHead(b, s.tpmKey, s.bind, s.nonce, salt + (kind + (sym + hash)));
    StartAuthMiddle(b, 10 + |s.nonce|, s.salt, s.sessionType, sym + hash);
  }

  lemma SymBytesThere(b: bytes, off: nat, s: SymDef, hash: int)
    requires SymDefBytes(s).Some? && ToBytes(hash, 2).Some?
    requires At(b, off, SymDefBytes(s).value, ToBytes(hash, 2).value)
    ensures IntAt(b, off, 2) == s.algorithm
    ensures s.algorithm != ALG_NULL ==> IntAt(b, off + 2, 2) == s.keyBits && IntAt(b, off + 4, 2) == s.mode
    ensures IntAt(b, if s.algorithm == ALG_NULL then off + 2 else off + 6, 2) == hash
  {
    hide IntAt, Slice, ToBytes;
    var alg, h := ToBytes(s.algorithm, 2).value, ToBytes(hash, 2).value;
    SymmetricThere(b, off, s, h);
    assert h == h + [];
    IntThere(b, if s.algorithm == ALG_NULL then off + 2 else off + 6, hash, 2, []);
    if s.algorithm != ALG_NULL {
      var keyBits, mode := ToBytes(s.keyBits, 2).value, ToBytes(s.mode, 2).value;
      assert alg + keyBits + mode + h == alg + (keyBits + (mode + h));
      TwoBytes(s.algorithm);
      IntThere(b, off, s.algorithm, 2, keyBits + (mode + h));
      IntThere(b, off + 2, s.keyBits, 2, mode + h);
      IntThere(b, off + 4, s.mode, 2, h);
    }
  }

  /** TPMStartAuthSession.to_proto recovers every field that a message can hold. */
  lemma StartAuthRoundTrip(s: StartAuth)
    requires StartAuthParams(s).Some?
    ensures 0 <= s.tpmKey && 0 <= s.bind && 0 <= s.sessionType < 0x100 && 0 <= s.authHash
    ensures 0 <= s.symmetric.algorithm && 0 <= SymMessage(s.symmetric).mode
    ensures StartAuthToProto(StartAuthParams(s).value) ==
            var named := {0x0, 0x1, 0x4, 0x5, 0x6, 0x8, 0xB, 0xC, 0x10, 0x14, 0x15, 0x17, 0x43};
            if s.sessionType in {0, 1, 3} && s.symmetric.algorithm in named && s.authHash in named
               && (s.symmetric.algorithm == 0x10 || s.symmetric.mode in named)
               && s.tpmKey < 0x8000_0000 && s.bind < 0x8000_0000
            then Some(StartAuthMessage(s.tpmKey, s.bind, s.nonce, s.salt, s.sessionType,
                                       if s.symmetric.algorithm == 0x10 then SymDef(0x10, 0, 0x10) else s.symmetric,
                                       s.authHash))
            else None
  {
    hide IntAt, Slice, ToBytes, Tpm2bBytes;
    StartAuthThere(s);
    FourBytes(s.tpmKey);
    FourBytes(s.bind);
    OneByte(s.sessionType);
    TwoBytes(s.authHash);
    TwoBytes(s.symmetric.algorithm);
    if s.symmetric.algorithm != ALG_NULL {
      TwoBytes(s.symmetric.mode);
    }
    SymBytesThere(StartAuthParams(s).value, 13 + |s.nonce| + |s.salt|, s.symmetric, s.authHash);
  }

  lemma StartAuthInRange(s: StartAuth)
    requires StartAuthParams(s).Some?
    ensures IsU32(s.tpmKey) && IsU32(s.bind) && 0 <= s.sessionType < 0x100 && 0 <= s.authHash < 0x1_0000
    ensures SymDefBytes(s.symmetric).Some?
  {
    hide ToBytes, SymDefBytes, Tpm2bBytes;
    FourBytes(s.tpmKey);
    FourBytes(s.bind);
    OneByte(s.sessionType);
    TwoBytes(s.authHash);
  }

  /** The command as the session layer and the TPM see it. */
  function OnWire(s: StartAuth): StartAuthSession.StartAuth
    requires StartAuthParams(s).Some?
  {
    StartAuthInRange(s);
    StartAuthSession.StartAuth(s.tpmKey, s.bind, s.nonce, s.salt, s.sessionType,
                               SymDefBytes(s.symmetric).value, s.authHash)
  }

  /**
    Every StartAuthSession command the generator writes is well formed, and the
    layer finds it compatible exactly when key and bind are NULL, the salt is
    empty, the type is HMAC and the hash SHA-256, whatever the symmetric definition.
   */
  lemma GeneratedStartAuthIsCaptured(s: StartAuth)
    requires StartAuthBytes(s).Some?
    ensures StartAuthBytes(s).value == StartAuthSession.EncodeStartAuth(ST_NO_SESSIONS, OnWire(s))
    ensures OnWire(s).WellFormed()
    ensures SessionLayer.OfferIn(StartAuthBytes(s).value) == Some(SessionLayer.Offer(
              OnWire(s).authHash,
              s.tpmKey == RH_NULL && s.bind == RH_NULL && s.salt == [] && s.sessionType == SE_HMAC
              && s.authHash == ALG_SHA256))
  {
    hide Be16, Be32, ToBytes, Header, SymDefBytes, SessionLayer.OfferIn;
    var w := OnWire(s);
    var params := StartAuthParams(s).value;
    CommandBytesForm(SeedCommand(ST_NO_SESSIONS, CC_START_AUTH_SESSION, params));
    ToBytesStores(s.tpmKey);
    ToBytesStores(s.bind);
    ToBytesStores(|s.nonce|);
    ToBytesStores(|s.salt|);
    ToBytesStores(s.sessionType);
    ToBytesStores(s.authHash);
    SymDefSize(s.symmetric);
    var sym := SymDefBytes(s.symmetric).value;
    Regroup6(Be32(s.tpmKey), Be32(s.bind), Tpm2b(s.nonce), Tpm2b(s.salt), [w.sessionType], sym, Be16(s.authHash));
    assert [w.sessionType] + (sym + Be16(s.authHash)) == StartAuthSession.Tail(w);
    var after := StartAuthSession.AfterHandles(w);
    assert params == Be32(s.tpmKey) + (Be32(s.bind) + after);
    var header := Header(ST_NO_SESSIONS, 18 + |after|, CC_START_AUTH_SESSION);
    assert header + (Be32(s.tpmKey) + (Be32(s.bind) + after)) == header + Be32(s.tpmKey) + Be32(s.bind) + after;
    StartAuthSession.CaptureIsFullParse(ST_NO_SESSIONS, w);
  }

  lemma SymDefSize(s: SymDef)
    requires SymDefBytes(s).Some?
    ensures |SymDefBytes(s).value| == if s.algorithm == ALG_NULL then 2 else 6
  {
    hide ToBytes;
    TwoBytes(s.algorithm);
    if s.algorithm != ALG_NULL {
      TwoBytes(s.keyBits);
      TwoBytes(s.mode);
    }
  }

  // ---------------------------------------------------------------------------
  // Agreement with the C++ marshaller
  // ---------------------------------------------------------------------------

  /** The header of a message, from _proto_header. */
  function HeaderOf(code: Marshalling.int32, params: bytes): Option<Marshalling.ProtoHeader> {
    if 10 + |params| < 0x1_0000_0000
    then Some(Marshalling.ProtoHeader(ST_SESSIONS, 10 + |params|, code)) else None
  }

  /** One password session, as the constructors make it. */
  function OneSession(handle: int): seq<AuthCommand> {
    [AuthCommand(handle, [], 0, [])]
  }

  function SessionMessages(handle: u32): seq<Marshalling.ProtoSession> {
    [Marshalling.ProtoSession(handle, [], 0, [])]
  }

  predicate IsEnum(v: int) {
    0 <= v < ENUM_LIMIT
  }

  predicate IsU32(v: int) {
    0 <= v < 0x1_0000_0000
  }

  // TPM2_Clear

  function ClearParams(authHandle: int, session: int): Option<bytes> {
    var handle :- ToBytes(authHandle, 4);
    var area :- AuthAreaBytes(OneSession(session));
    Some(handle + area)
  }

  function ClearBytes(authHandle: int, session: int): Option<bytes> {
    var params :- ClearParams(authHandle, session);
    CommandBytes(SeedCommand(ST_SESSIONS, CC_CLEAR, params))
  }

  function ClearToProto(authHandle: int, session: int): Option<Marshalling.Message> {
    var params :- ClearParams(authHandle, session);
    var header :- HeaderOf(CC_CLEAR, params);
    if !IsU32(authHandle) || !IsU32(session) then None
    else Some(Marshalling.Clear(header, authHandle, SessionMessages(session)))
  }

  // TPM2_SetPrimaryPolicy

  function SetPrimaryPolicyParams(authHandle: int, policy: bytes, hashAlg: int, session: int): Option<bytes> {
    var handle :- ToBytes(authHandle, 4);
    var area :- AuthAreaBytes(OneSession(session));
    var digest :- Tpm2bBytes(policy);
    var hash :- ToBytes(hashAlg, 2);
    Some(handle + area + digest + hash)
  }

  /** The message, which the constructor makes. */
  function SetPrimaryPolicyToProto(authHandle: int, policy: bytes, hashAlg: int, session: int)
    : Option<Marshalling.Message>
  {
    var params :- SetPrimaryPolicyParams(authHandle, policy, hashAlg, session);
    var header :- HeaderOf(CC_SET_PRIMARY_POLICY, params);
    if !IsEnum(authHandle) || !IsU32(session) || !IsEnum(hashAlg) then None
    else Some(Marshalling.SetPrimaryPolicy(header, authHandle, SessionMessages(session), policy, hashAlg))
  }

  /** There are no bytes without a message, because then the constructor has raised. */
  function SetPrimaryPolicyBytes(authHandle: int, policy: bytes, hashAlg: int, session: int): Option<bytes> {
    var message :- SetPrimaryPolicyToProto(authHandle, policy, hashAlg, session);
    var params :- SetPrimaryPolicyParams(authHandle, policy, hashAlg, session);
    CommandBytes(SeedCommand(ST_SESSIONS, CC_SET_PRIMARY_POLICY, params))
  }

  // TPM2_PCR_SetAuthPolicy

  function PcrSetAuthPolicyParams(authHandle: int, policy: bytes, hashAlg: int, pcrNum: int, session: int)
    : Option<bytes>
  {
    var handle :- ToBytes(authHandle, 4);
    var area :- AuthAreaBytes(OneSession(session));
    var digest :- Tpm2bBytes(policy);
    var hash :- ToBytes(hashAlg, 2);
    var pcr :- ToBytes(pcrNum, 4);
    Some(handle + area + digest + hash + pcr)
  }

  /** The message, which the constructor makes. */
  function PcrSetAuthPolicyToProto(authHandle: int, policy: bytes, hashAlg: int, pcrNum: int, session: int)
    : Option<Marshalling.Message>
  {
    var params :- PcrSetAuthPolicyParams(authHandle, policy, hashAlg, pcrNum, session);
    var header :- HeaderOf(CC_PCR_SET_AUTH_POLICY, params);
    if !IsU32(authHandle) || !IsU32(session) || !IsEnum(hashAlg) || !IsU32(pcrNum) then None
    else
      Some(Marshalling.PcrSetAuthPolicy(header, authHandle, SessionMessages(session), policy, hashAlg, pcrNum))
  }

  function PcrSetAuthPolicyBytes(authHandle: int, policy: bytes, hashAlg: int, pcrNum: int, session: int)
    : Option<bytes>
  {
    var message :- PcrSetAuthPolicyToProto(authHandle, policy, hashAlg, pcrNum, session);
    var params :- PcrSetAuthPolicyParams(authHandle, policy, hashAlg, pcrNum, session);
    CommandBytes(SeedCommand(ST_SESSIONS, CC_PCR_SET_AUTH_POLICY, params))
  }

  /** The messages that parsed sessions are stored in. */
  function ProtoSessionsOf(ss: seq<SeedSession>): (ps: seq<Marshalling.ProtoSession>)
    requires forall s | s in ss :: s.handle < 0x1_0000_0000
  {
    if |ss| == 0 then []
    else [Marshalling.ProtoSession(ss[0].handle, ss[0].nonce, ss[0].attributes, ss[0].hmac)] + ProtoSessionsOf(ss[1..])
  }

  lemma EntrySurvives(c: AuthCommand)
    requires AuthCommandBytes(c).Some?
    ensures SeedSessionOf(c).handle < 0x1_0000_0000
    ensures EncodeEntry(Marshalling.SessionEntry(ProtoSessionsOf([SeedSessionOf(c)])[0])) == AuthCommandBytes(c).value
  {
    hide Be16, Be32, ToBytes;
    ToBytesStores(c.sessionHandle);
    ToBytesStores(c.attributes);
    ToBytesStores(|c.nonce|);
    ToBytesStores(|c.hmac|);
    SessionFields(c);
    var e := Marshalling.SessionEntry(ProtoSessionsOf([SeedSessionOf(c)])[0]);
    assert e == AuthEntry(c.sessionHandle, c.nonce, c.attributes, c.hmac);
  }

  lemma {:induction false} EntriesSurvive(cs: seq<AuthCommand>)
    requires AuthCommandsBytes(cs).Some?
    ensures forall s | s in SeedSessions(cs) :: s.handle < 0x1_0000_0000
    ensures EncodeEntries(Marshalling.SessionEntries(ProtoSessionsOf(SeedSessions(cs)))) == AuthCommandsBytes(cs).value
  {
    hide AuthCommandBytes, EncodeEntry, Marshalling.SessionEntry, SeedSessionOf;
    if |cs| != 0 {
      EntrySurvives(cs[0]);
      EntriesSurvive(cs[1..]);
      var ss := SeedSessions(cs);
      assert ss[0] == SeedSessionOf(cs[0]) && ss[1..] == SeedSessions(cs[1..]);
      var es := Marshalling.SessionEntries(ProtoSessionsOf(ss));
      assert es[1..] == Marshalling.SessionEntries(ProtoSessionsOf(ss[1..]));
    }
  }

  /**
    From bytes to message and back, across both implementations: for every list of
    sessions, what the generator parses out of its own authorization area is
    marshalled to that very area.
   */
  lemma AreaSurvives(cs: seq<AuthCommand>)
    requires AuthAreaBytes(cs).Some?
    ensures var area := AuthAreaBytes(cs).value;
            && SessionsFrom(area, 4).Some?
            && (forall s | s in SessionsFrom(area, 4).value :: s.handle < 0x1_0000_0000)
            && Marshalling.FieldEncoding(Marshalling.Sessions(ProtoSessionsOf(SessionsFrom(area, 4).value)))
               == Some(area)
  {
    hide Be32, ToBytes, EncodeEntries, AuthCommandsBytes, SessionsFrom;
    SessionsInvert(cs);
    EntriesSurvive(cs);
    ToBytesStores(|AuthCommandsBytes(cs).value|);
  }

  /** The generator's authorization area is the one the marshaller back-patches. */
  lemma AreasAgree(session: int)
    requires AuthAreaBytes(OneSession(session)).Some?
    ensures IsU32(session)
    ensures Marshalling.FieldEncoding(Marshalling.Sessions(SessionMessages(session)))
            == AuthAreaBytes(OneSession(session))
    ensures |AuthAreaBytes(OneSession(session)).value| == 13
  {
    hide Be16, Be32, ToBytes;
    ToBytesStores(session);
    ToBytesStores(0);
    var c := OneSession(session)[0];
    var e := AuthEntry(session, [], 0, []);
    assert AuthCommandBytes(c) == Some(EncodeEntry(e));
    assert AuthCommandsBytes(OneSession(session)) == Some(EncodeEntry(e) + []);
    assert EncodeEntry(e) + [] == EncodeEntry(e);
    ToBytesStores(|EncodeEntry(e)|);
    var es := Marshalling.SessionEntries(SessionMessages(session));
    assert es[0] == e && es == [e];
    assert EncodeEntries([e]) == EncodeEntry(e) + EncodeEntries([e][1..]) == EncodeEntry(e);
  }

  /** What a list of encodable fields comes to. */
  lemma FieldsCons(f: Marshalling.Field, fs: seq<Marshalling.Field>)
    ensures Marshalling.FieldsEncoding([f] + fs) ==
            if Marshalling.FieldEncoding(f).Some? && Marshalling.FieldsEncoding(fs).Some?
            then Some(Marshalling.FieldEncoding(f).value + Marshalling.FieldsEncoding(fs).value) else None
  {
    hide Marshalling.FieldEncoding;
    assert ([f] + fs)[0] == f && ([f] + fs)[1..] == fs;
  }

  /** A message whose fields come to the parameters is marshalled to the generator's bytes. */
  lemma BodyAgrees(m: Marshalling.Message, code: Marshalling.int32, params: bytes)
    requires 10 + |params| <= Marshalling.MAX_BUFFER
    requires !m.NotSet? && 0 <= code && m.header == Marshalling.ProtoHeader(ST_SESSIONS, 10 + |params|, code)
    requires Marshalling.FieldsEncoding(Marshalling.Body(m)) == Some(params)
    ensures CommandBytes(SeedCommand(ST_SESSIONS, code, params)).Some?
    ensures Marshalling.CommandEncoding(m) == CommandBytes(SeedCommand(ST_SESSIONS, code, params))
  {
    hide Be16, Be32, ToBytes, Header, Marshalling.Body, Marshalling.FieldsEncoding;
    CommandBytesForm(SeedCommand(ST_SESSIONS, code, params));
  }

  /** TPM2_Clear: marshalling the message gives exactly the generator's bytes. */
  lemma ClearAgrees(authHandle: int, session: int)
    requires ClearBytes(authHandle, session).Some?
    ensures ClearToProto(authHandle, session).Some?
    ensures Marshalling.CommandEncoding(ClearToProto(authHandle, session).value) == ClearBytes(authHandle, session)
  {
    hide Be16, Be32, ToBytes, AuthAreaBytes, Marshalling.FieldEncoding, Marshalling.FieldsEncoding,
         Marshalling.CommandEncoding, CommandBytes;
    ToBytesStores(authHandle);
    AreasAgree(session);
    var params := ClearParams(authHandle, session).value;
    var m := ClearToProto(authHandle, session).value;
    var f0, f1 := Marshalling.Uint32(authHandle), Marshalling.Sessions(SessionMessages(session));
    assert Marshalling.Body(m) == [f0] + ([f1] + []);
    FieldsCons(f0, [f1] + []);
    FieldsCons(f1, []);
    SimpleFields(authHandle, 0, []);
    assert Be32(authHandle) + (AuthAreaBytes(OneSession(session)).value + []) == params;
    BodyAgrees(m, CC_CLEAR, params);
  }

  /** The encodings of the plain fields. */
  lemma SimpleFields(handle: int, hashAlg: int, policy: bytes)
    ensures IsU32(handle) ==> Marshalling.FieldEncoding(Marshalling.Uint32(handle)) == Some(Be32(handle))
    ensures IsEnum(handle) ==> Marshalling.FieldEncoding(Marshalling.EnumUint32(handle)) == Some(Be32(handle))
    ensures IsEnum(hashAlg) ==> Marshalling.FieldEncoding(Marshalling.EnumUint16(hashAlg)) == Some(Be16(hashAlg))
    ensures |policy| < 0x1_0000 ==>
              Marshalling.FieldEncoding(Marshalling.DigestField(policy)) == Some(Tpm2b(policy))
    ensures Marshalling.FieldsEncoding([]) == Some([])
  {
    hide Be16, Be32;
  }

  /**
    TPM2_SetPrimaryPolicy: the same, and there is a command exactly for values that
    fit: the handle must fit the message's enum, and not only its four bytes.
   */
  lemma SetPrimaryPolicyAgrees(authHandle: int, policy: bytes, hashAlg: int, session: int)
    ensures SetPrimaryPolicyBytes(authHandle, policy, hashAlg, session).Some? <==>
            && 0 <= authHandle < 0x8000_0000 && |policy| < 0x1_0000 && 0 <= hashAlg < 0x1_0000
            && 0 <= session < 0x1_0000_0000
    ensures var b, m := SetPrimaryPolicyBytes(authHandle, policy, hashAlg, session),
                        SetPrimaryPolicyToProto(authHandle, policy, hashAlg, session);
            b.Some? ==> m.Some? && Marshalling.CommandEncoding(m.value) == b
  {
    hide Be16, Be32, ToBytes, AuthAreaBytes, Marshalling.FieldEncoding, Marshalling.FieldsEncoding,
         Marshalling.CommandEncoding, CommandBytes;
    ToBytesStores(authHandle);
    ToBytesStores(|policy|);
    ToBytesStores(hashAlg);
    AreaExists(session);
    if SetPrimaryPolicyToProto(authHandle, policy, hashAlg, session).Some? {
      AreasAgree(session);
      var params := SetPrimaryPolicyParams(authHandle, policy, hashAlg, session).value;
      var m := SetPrimaryPolicyToProto(authHandle, policy, hashAlg, session).value;
      var f0, f1 := Marshalling.EnumUint32(authHandle), Marshalling.Sessions(SessionMessages(session));
      var f2, f3 := Marshalling.DigestField(policy), Marshalling.EnumUint16(hashAlg);
      assert Marshalling.Body(m) == [f0] + ([f1] + ([f2] + ([f3] + [])));
      FieldsCons(f0, [f1] + ([f2] + ([f3] + [])));
      FieldsCons(f1, [f2] + ([f3] + []));
      FieldsCons(f2, [f3] + []);
      FieldsCons(f3, []);
      SimpleFields(authHandle, hashAlg, policy);
      var area := AuthAreaBytes(OneSession(session)).value;
      Regroup4(Be32(authHandle), area, Tpm2b(policy), Be16(hashAlg), []);
      assert Be32(authHandle) + area + Tpm2b(policy) + Be16(hashAlg) + [] == params;
      BodyAgrees(m, CC_SET_PRIMARY_POLICY, params);
    }
  }

  lemma AreaExists(session: int)
    ensures AuthAreaBytes(OneSession(session)).Some? <==> IsU32(session)
    ensures IsU32(session) ==> |AuthAreaBytes(OneSession(session)).value| == 13
  {
    hide Be16, Be32, ToBytes;
    ToBytesStores(session);
    ToBytesStores(0);
    ToBytesStores(9);
    var c := OneSession(session)[0];
    assert OneSession(session)[1..] == [] && AuthCommandsBytes([]) == Some([]);
    assert AuthCommandBytes(c).Some? <==> IsU32(session);
    if IsU32(session) {
      assert |AuthCommandBytes(c).value| == 9;
    }
  }

  /** TPM2_PCR_SetAuthPolicy: marshalling the message gives exactly the generator's bytes. */
  lemma PcrSetAuthPolicyAgrees(authHandle: int, policy: bytes, hashAlg: int, pcrNum: int, session: int)
    requires PcrSetAuthPolicyBytes(authHandle, policy, hashAlg, pcrNum, session).Some?
    ensures PcrSetAuthPolicyToProto(authHandle, policy, hashAlg, pcrNum, session).Some?
    ensures Marshalling.CommandEncoding(PcrSetAuthPolicyToProto(authHandle, policy, hashAlg, pcrNum, session).value)
            == PcrSetAuthPolicyBytes(authHandle, policy, hashAlg, pcrNum, session)
  {
    hide Be16, Be32, ToBytes, AuthAreaBytes, Marshalling.FieldEncoding, Marshalling.FieldsEncoding,
         Marshalling.CommandEncoding, CommandBytes;
    ToBytesStores(authHandle);
    ToBytesStores(|policy|);
    ToBytesStores(hashAlg);
    ToBytesStores(pcrNum);
    AreasAgree(session);
    var params := PcrSetAuthPolicyParams(authHandle, policy, hashAlg, pcrNum, session).value;
    var m := PcrSetAuthPolicyToProto(authHandle, policy, hashAlg, pcrNum, session).value;
    var f0, f1 := Marshalling.Uint32(authHandle), Marshalling.Sessions(SessionMessages(session));
    var f2, f3, f4 := Marshalling.DigestField(policy), Marshalling.EnumUint16(hashAlg), Marshalling.Uint32(pcrNum);
    assert Marshalling.Body(m) == [f0] + ([f1] + ([f2] + ([f3] + ([f4] + []))));
    FieldsCons(f0, [f1] + ([f2] + ([f3] + ([f4] + []))));
    FieldsCons(f1, [f2] + ([f3] + ([f4] + [])));
    FieldsCons(f2, [f3] + ([f4] + []));
    FieldsCons(f3, [f4] + []);
    FieldsCons(f4, []);
    SimpleFields(authHandle, hashAlg, policy);
    SimpleFields(pcrNum, hashAlg, policy);
    var area := AuthAreaBytes(OneSession(session)).value;
    Regroup5(Be32(authHandle), area, Tpm2b(policy), Be16(hashAlg), Be32(pcrNum), []);
    assert Be32(authHandle) + area + Tpm2b(policy) + Be16(hashAlg) + Be32(pcrNum) + [] == params;
    BodyAgrees(m, CC_PCR_SET_AUTH_POLICY, params);
  }
}
