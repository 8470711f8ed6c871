/**
  The two implementations agree on every kind of message: marshalling what the
  seed generator's classes make gives the bytes that those classes write. Fields
  that the Tss2_MU library marshals are taken as the generator encodes them.
 */
module GeneratorAgreement {
  import opened Bytes
  import opened CommandLayout
  import opened Framing
  import opened SeedCommands
  import opened SeedMessages
  import opened SeedParsers
  import opened SeedTypes
  import Marshalling
  import SessionLayer
  import StartAuthSession

  type Field = Marshalling.Field
  type Message = Marshalling.Message

  // ---------------------------------------------------------------------------
  // Fields one after another
  // ---------------------------------------------------------------------------

  /** The parts are what the fields are marshalled to. */
  ghost predicate Encode(fs: seq<Field>, parts: seq<bytes>) {
    |fs| == |parts| && forall i | 0 <= i < |fs| :: Marshalling.FieldEncoding(fs[i]) == Some(parts[i])
  }

  lemma {:induction false} FieldsAre(fs: seq<Field>, parts: seq<bytes>)
    requires Encode(fs, parts)
    ensures Marshalling.FieldsEncoding(fs) == Some(Concat(parts))
  {
    hide Marshalling.FieldEncoding;
    if |fs| != 0 {
      FieldsAre(fs[1..], parts[1..]);
    }
  }

  /** A message with the right header is marshalled to the command with its fields' encodings. */
  lemma Agrees(m: Message, tag: u16, code: u32, parts: seq<bytes>)
    requires !m.NotSet? && m.header.tag == tag && m.header.commandCode == code
    requires Encode(Marshalling.Body(m), parts)
    ensures Marshalling.CommandEncoding(m) ==
            if 10 + |Concat(parts)| <= 0x10_0000 then CommandBytes(SeedCommand(tag, code, Concat(parts))) else None
  {
    hide Be16, Be32, ToBytes, Header, Marshalling.FieldsEncoding, Encode, Concat, Marshalling.Body,
         CommandBytes;
    FieldsAre(Marshalling.Body(m), parts);
    CommandBytesForm(SeedCommand(tag, code, Concat(parts)));
  }

  /** Up to six parts, written out. */
  lemma Concat6(parts: seq<bytes>)
    ensures |parts| == 1 ==> Concat(parts) == parts[0]
    ensures |parts| == 2 ==> Concat(parts) == parts[0] + parts[1]
    ensures |parts| == 3 ==> Concat(parts) == parts[0] + parts[1] + parts[2]
    ensures |parts| == 4 ==> Concat(parts) == parts[0] + parts[1] + parts[2] + parts[3]
    ensures |parts| == 5 ==> Concat(parts) == parts[0] + parts[1] + parts[2] + parts[3] + parts[4]
    ensures |parts| == 6 ==> Concat(parts) == parts[0] + parts[1] + parts[2] + parts[3] + parts[4] + parts[5]
  {
    hide Concat;
    ConcatNext(parts, 0);
    ConcatNext(parts, 1);
    ConcatNext(parts, 2);
    ConcatNext(parts, 3);
    ConcatNext(parts, 4);
    ConcatNext(parts, 5);
  }

  lemma ConcatNext(parts: seq<bytes>, i: nat)
    ensures i < |parts| ==> Concat(parts[..i + 1]) == Concat(parts[..i]) + parts[i]
    ensures i == 0 ==> Concat(parts[..i]) == []
    ensures i + 1 == |parts| ==> parts[..i + 1] == parts
    ensures i == 0 && |parts| != 0 ==> Concat(parts[..1]) == parts[0]
  {
    if i < |parts| {
      ConcatSnoc(parts[..i], parts[i]);
      assert parts[..i + 1] == parts[..i] + [parts[i]];
      if i == 0 {
        assert [] + parts[0] == parts[0];
      }
    }
  }

  /** The encodings of single fields. */
  lemma OneField(v: int, data: bytes)
    ensures 0 <= v < 0x1_0000_0000 ==> Marshalling.FieldEncoding(Marshalling.Uint32(v)) == ToBytes(v, 4)
    ensures 0 <= v < 0x8000_0000 ==> Marshalling.FieldEncoding(Marshalling.EnumUint32(v)) == ToBytes(v, 4)
    ensures Marshalling.FieldEncoding(Marshalling.Library(Some(data))) == Some(data)
    ensures ToBytes(v, 4).Some? <==> 0 <= v < 0x1_0000_0000
  {
    ToBytesStores(v);
  }

  function HeaderWith(tag: u16, size: u32, code: Marshalling.int32): Marshalling.ProtoHeader {
    Marshalling.ProtoHeader(tag, size, code)
  }

  // ---------------------------------------------------------------------------
  // Commands without sessions
  // ---------------------------------------------------------------------------

  /** TPM2_GetRandom; a count over 16 bits does not marshal. */
  lemma GetRandomAgrees(size: u32, count: u32)
    ensures Marshalling.CommandEncoding(Marshalling.GetRandom(HeaderWith(0x8001, size, 0x17B), count)) ==
            match ToBytes(count, 2)
            case None => None
            case Some(params) => CommandBytes(SeedCommand(0x8001, 0x17B, params))
    ensures ToBytes(count, 2).Some? <==> count <= 0xFFFF
  {
    hide Be16, Be32, ToBytes, CommandBytes, Concat;
    var m := Marshalling.GetRandom(HeaderWith(0x8001, size, 0x17B), count);
    ToBytesStores(count);
    if count <= 0xFFFF {
      Agrees(m, 0x8001, 0x17B, [Be16(count)]);
      Concat6([Be16(count)]);
    }
  }

  /** TPM2_PCR_Read. */
  lemma PcrReadAgrees(size: u32, ss: seq<PcrSelection>)
    requires PcrListBytes(ss).Some? && |PcrListBytes(ss).value| <= 0xF_FFF6
    ensures Marshalling.CommandEncoding(Marshalling.PcrRead(HeaderWith(0x8001, size, 0x17E), PcrListBytes(ss)))
            == CommandBytes(SeedCommand(0x8001, 0x17E, PcrListBytes(ss).value))
  {
    hide Be16, Be32, PcrListBytes, CommandBytes, Concat;
    var list := PcrListBytes(ss).value;
    Agrees(Marshalling.PcrRead(HeaderWith(0x8001, size, 0x17E), PcrListBytes(ss)), 0x8001, 0x17E, [list]);
    Concat6([list]);
  }

  function MakeCredentialParams(handle: int, credential: bytes, objectName: bytes): Option<bytes> {
    var h :- ToBytes(handle, 4);
    var c :- Tpm2bBytes(credential);
    var n :- Tpm2bBytes(objectName);
    Some(h + c + n)
  }

  /** TPM2_MakeCredential. */
  lemma MakeCredentialAgrees(size: u32, handle: int, credential: bytes, objectName: bytes)
    requires MakeCredentialParams(handle, credential, objectName).Some?
    ensures IsU32(handle)
    ensures Marshalling.CommandEncoding(
              Marshalling.MakeCredential(HeaderWith(0x8001, size, 0x168), handle, Tpm2bBytes(credential),
                                         Tpm2bBytes(objectName)))
            == CommandBytes(SeedCommand(0x8001, 0x168, MakeCredentialParams(handle, credential, objectName).value))
  {
    hide Be16, Be32, ToBytes, CommandBytes, Concat, Tpm2bBytes;
    OneField(handle, []);
    Tpm2bSize(credential);
    Tpm2bSize(objectName);
    var parts := [ToBytes(handle, 4).value, Tpm2bBytes(credential).value, Tpm2bBytes(objectName).value];
    FourBytes(handle);
    Agrees(Marshalling.MakeCredential(HeaderWith(0x8001, size, 0x168), handle, Tpm2bBytes(credential),
                                      Tpm2bBytes(objectName)), 0x8001, 0x168, parts);
    Concat6(parts);
  }

  lemma Tpm2bSize(data: bytes)
    ensures Tpm2bBytes(data).Some? <==> |data| < 0x1_0000
    ensures Tpm2bBytes(data).Some? ==> Tpm2bBytes(data).value == Tpm2b(data) && |Tpm2b(data)| == 2 + |data|
  {
    ToBytesStores(|data|);
  }

  /** TPMT_RSA_DECRYPT.to_bytes: a hash only with OAEP, and only if one is given. */
  function RsaSchemeBytes(scheme: int, hashAlg: Option<int>): Option<bytes> {
    var s :- ToBytes(scheme, 2);
    if scheme == 0x17 && hashAlg.Some? then
      var h :- ToBytes(hashAlg.value, 2);
      Some(s + h)
    else Some(s)
  }

  /** The message has hash 0 where the generator has none. */
  function HashOrZero(hashAlg: Option<int>): int {
    if hashAlg.Some? then hashAlg.value else 0
  }

  /** The two write the same scheme, but for OAEP without a hash: there the marshaller writes two zero bytes more. */
  lemma RsaSchemesAgree(scheme: int, hashAlg: Option<int>)
    requires RsaSchemeBytes(scheme, hashAlg).Some? && IsEnum(HashOrZero(hashAlg))
    ensures 0 <= scheme < 0x1_0000
    ensures var field := Marshalling.FieldEncoding(Marshalling.RsaScheme(scheme, HashOrZero(hashAlg)));
            field == Some(RsaSchemeBytes(scheme, hashAlg).value
                          + if scheme == 0x17 && hashAlg.None? then [0, 0] else [])
    ensures 2 <= |RsaSchemeBytes(scheme, hashAlg).value| <= 4
  {
    hide ToBytes;
    TwoBytes(scheme);
    ToBytesStores(scheme);
    var s := RsaSchemeBytes(scheme, hashAlg).value;
    assert s + [] == s && Be16(scheme) + [] == Be16(scheme) && Be16(0) == [0, 0];
    if hashAlg.Some? {
      ToBytesStores(hashAlg.value);
    }
  }

  function RsaEncryptParams(key: int, message: bytes, scheme: int, hashAlg: Option<int>, tag: bytes): Option<bytes> {
    var k :- ToBytes(key, 4);
    var m :- Tpm2bBytes(message);
    var s :- RsaSchemeBytes(scheme, hashAlg);
    var t :- Tpm2bBytes(tag);
    Some(k + m + s + t)
  }

  /** TPM2_RSA_Encrypt: the same bytes exactly unless the scheme is OAEP without a hash. */
  lemma RsaEncryptAgrees(size: u32, key: int, message: bytes, scheme: int, hashAlg: Option<int>, tag: bytes)
    requires RsaEncryptParams(key, message, scheme, hashAlg, tag).Some? && IsEnum(HashOrZero(hashAlg))
    ensures IsU32(key) && IsEnum(scheme)
    ensures Marshalling.CommandEncoding(
              Marshalling.RsaEncrypt(HeaderWith(0x8001, size, 0x174), key, Tpm2bBytes(message), scheme,
                                     HashOrZero(hashAlg), Tpm2bBytes(tag)))
            == CommandBytes(SeedCommand(0x8001, 0x174, RsaEncryptParams(key, message, scheme, hashAlg, tag).value))
            <==> scheme != 0x17 || hashAlg.Some?
  {
    hide Be16, Be32, ToBytes, CommandBytes, Concat, Tpm2bBytes, RsaSchemeBytes, Marshalling.FieldEncoding;
    OneField(key, Tpm2bBytes(message).value);
    OneField(key, Tpm2bBytes(tag).value);
    Tpm2bSize(message);
    Tpm2bSize(tag);
    RsaSchemesAgree(scheme, hashAlg);
    var k, s, more := ToBytes(key, 4).value, RsaSchemeBytes(scheme, hashAlg).value,
                      if scheme == 0x17 && hashAlg.None? then [0, 0] else [];
    FourBytes(key);
    var parts := [k, Tpm2bBytes(message).value, s + more, Tpm2bBytes(tag).value];
    var m := Marshalling.RsaEncrypt(HeaderWith(0x8001, size, 0x174), key, Tpm2bBytes(message), scheme,
                                    HashOrZero(hashAlg), Tpm2bBytes(tag));
    Agrees(m, 0x8001, 0x174, parts);
    Concat6(parts);
    CommandBytesForm(SeedCommand(0x8001, 0x174, Concat(parts)));
    CommandBytesForm(SeedCommand(0x8001, 0x174, RsaEncryptParams(key, message, scheme, hashAlg, tag).value));
    assert s + [] == s;
  }

  // ---------------------------------------------------------------------------
  // Commands with one password session
  // ---------------------------------------------------------------------------

  /** A handle, the area of one session, and then the given parameters. */
  function WithSession(handle: int, session: int, params: bytes): Option<bytes> {
    var h :- ToBytes(handle, 4);
    var area :- AuthAreaBytes(OneSession(session));
    Some(h + area + params)
  }

  lemma SessionParts(handle: int, session: int, params: bytes)
    requires WithSession(handle, session, params).Some?
    ensures IsU32(handle) && IsU32(session)
    ensures var h, area := ToBytes(handle, 4).value, AuthAreaBytes(OneSession(session)).value;
            && |h| == 4 && |area| == 13 && WithSession(handle, session, params).value == h + area + params
            && Marshalling.FieldEncoding(Marshalling.Uint32(handle)) == Some(h)
            && (IsEnum(handle) ==> Marshalling.FieldEncoding(Marshalling.EnumUint32(handle)) == Some(h))
            && Marshalling.FieldEncoding(Marshalling.Sessions(SessionMessages(session))) == Some(area)
  {
    hide ToBytes, AuthAreaBytes, Marshalling.FieldEncoding;
    FourBytes(handle);
    OneField(handle, []);
    AreasAgree(session);
  }

  /** TPM2_PCR_Event. */
  lemma PcrEventAgrees(size: u32, pcr: int, data: bytes, session: int)
    requires Tpm2bBytes(data).Some? && WithSession(pcr, session, Tpm2bBytes(data).value).Some?
    ensures IsU32(pcr) && IsU32(session)
    ensures Marshalling.CommandEncoding(
              Marshalling.PcrEvent(HeaderWith(0x8002, size, 0x13C), pcr, SessionMessages(session), Tpm2bBytes(data)))
            == CommandBytes(SeedCommand(0x8002, 0x13C, WithSession(pcr, session, Tpm2bBytes(data).value).value))
  {
    hide Be16, Be32, ToBytes, CommandBytes, Concat, Tpm2bBytes, AuthAreaBytes, Marshalling.FieldEncoding;
    SessionParts(pcr, session, Tpm2bBytes(data).value);
    OneField(pcr, Tpm2bBytes(data).value);
    Tpm2bSize(data);
    var parts := [ToBytes(pcr, 4).value, AuthAreaBytes(OneSession(session)).value, Tpm2bBytes(data).value];
    Agrees(Marshalling.PcrEvent(HeaderWith(0x8002, size, 0x13C), pcr, SessionMessages(session), Tpm2bBytes(data)),
           0x8002, 0x13C, parts);
    Concat6(parts);
  }

  /** TPM2_PCR_Allocate, for handles that fit the message's enum. */
  lemma PcrAllocateAgrees(size: u32, auth: int, ss: seq<PcrSelection>, session: int)
    requires PcrListBytes(ss).Some? && |PcrListBytes(ss).value| <= 0xF_FFE5
    requires WithSession(auth, session, PcrListBytes(ss).value).Some? && auth < 0x8000_0000
    ensures IsEnum(auth) && IsU32(session)
    ensures Marshalling.CommandEncoding(
              Marshalling.PcrAllocate(HeaderWith(0x8002, size, 0x12B), auth, SessionMessages(session),
                                      PcrListBytes(ss)))
            == CommandBytes(SeedCommand(0x8002, 0x12B, WithSession(auth, session, PcrListBytes(ss).value).value))
  {
    hide Be16, Be32, ToBytes, CommandBytes, Concat, PcrListBytes, AuthAreaBytes, Marshalling.FieldEncoding;
    SessionParts(auth, session, PcrListBytes(ss).value);
    OneField(auth, PcrListBytes(ss).value);
    var parts := [ToBytes(auth, 4).value, AuthAreaBytes(OneSession(session)).value, PcrListBytes(ss).value];
    Agrees(Marshalling.PcrAllocate(HeaderWith(0x8002, size, 0x12B), auth, SessionMessages(session), PcrListBytes(ss)),
           0x8002, 0x12B, parts);
    Concat6(parts);
  }

  /** TPM2_Load: private and public parts are given as TPM2Bs. */
  lemma LoadAgrees(size: u32, parent: int, inPrivate: bytes, inPublic: bytes, session: int)
    requires WithSession(parent, session, inPrivate + inPublic).Some? && |inPrivate + inPublic| <= 0xF_FFE5
    ensures IsU32(parent) && IsU32(session)
    ensures Marshalling.CommandEncoding(
              Marshalling.Load(HeaderWith(0x8002, size, 0x157), parent, SessionMessages(session), Some(inPrivate),
                               Some(inPublic)))
            == CommandBytes(SeedCommand(0x8002, 0x157, WithSession(parent, session, inPrivate + inPublic).value))
  {
    hide Be16, Be32, ToBytes, CommandBytes, Concat, AuthAreaBytes, Marshalling.FieldEncoding;
    SessionParts(parent, session, inPrivate + inPublic);
    OneField(parent, inPrivate);
    OneField(parent, inPublic);
    var h, area := ToBytes(parent, 4).value, AuthAreaBytes(OneSession(session)).value;
    Agrees(Marshalling.Load(HeaderWith(0x8002, size, 0x157), parent, SessionMessages(session), Some(inPrivate),
                            Some(inPublic)), 0x8002, 0x157, [h, area, inPrivate, inPublic]);
    Concat6([h, area, inPrivate, inPublic]);
    assert h + area + inPrivate + inPublic == h + area + (inPrivate + inPublic);
  }

  function RsaDecryptParams(cipherText: bytes, scheme: int, hashAlg: Option<int>, tag: bytes): Option<bytes> {
    var c :- Tpm2bBytes(cipherText);
    var s :- RsaSchemeBytes(scheme, hashAlg);
    var t :- Tpm2bBytes(tag);
    Some(c + s + t)
  }

  /** TPM2_RSA_Decrypt: the same bytes exactly unless the scheme is OAEP without a hash. */
  lemma RsaDecryptAgrees(size: u32, key: int, cipherText: bytes, scheme: int, hashAlg: Option<int>, tag: bytes,
                         session: int)
    requires RsaDecryptParams(cipherText, scheme, hashAlg, tag).Some? && IsEnum(HashOrZero(hashAlg))
    requires WithSession(key, session, RsaDecryptParams(cipherText, scheme, hashAlg, tag).value).Some?
    ensures IsU32(key) && IsU32(session) && IsEnum(scheme)
    ensures Marshalling.CommandEncoding(
              Marshalling.RsaDecrypt(HeaderWith(0x8002, size, 0x159), key, SessionMessages(session),
                                     Tpm2bBytes(cipherText), scheme, HashOrZero(hashAlg), Tpm2bBytes(tag)))
            == CommandBytes(SeedCommand(0x8002, 0x159,
                 WithSession(key, session, RsaDecryptParams(cipherText, scheme, hashAlg, tag).value).value))
            <==> scheme != 0x17 || hashAlg.Some?
  {
    hide Be16, Be32, ToBytes, CommandBytes, Concat, Tpm2bBytes, RsaSchemeBytes, AuthAreaBytes,
         Marshalling.FieldEncoding;
    var params := RsaDecryptParams(cipherText, scheme, hashAlg, tag).value;
    SessionParts(key, session, params);
    OneField(key, Tpm2bBytes(cipherText).value);
    OneField(key, Tpm2bBytes(tag).value);
    Tpm2bSize(cipherText);
    Tpm2bSize(tag);
    RsaSchemesAgree(scheme, hashAlg);
    var h, area := ToBytes(key, 4).value, AuthAreaBytes(OneSession(session)).value;
    var s := RsaSchemeBytes(scheme, hashAlg).value;
    var c, t, more := Tpm2bBytes(cipherText).value, Tpm2bBytes(tag).value,
                      if scheme == 0x17 && hashAlg.None? then [0, 0] else [];
    var parts := [h, area, c, s + more, t];
    var m := Marshalling.RsaDecrypt(HeaderWith(0x8002, size, 0x159), key, SessionMessages(session),
                                    Tpm2bBytes(cipherText), scheme, HashOrZero(hashAlg), Tpm2bBytes(tag));
    Agrees(m, 0x8002, 0x159, parts);
    Concat6(parts);
    CommandBytesForm(SeedCommand(0x8002, 0x159, Concat(parts)));
    CommandBytesForm(SeedCommand(0x8002, 0x159, WithSession(key, session, params).value));
    assert s + [] == s;
    assert h + area + c + s + t == h + area + (c + s + t);
  }

  // ---------------------------------------------------------------------------
  // Commands with any sessions
  // ---------------------------------------------------------------------------

  lemma AreaParts(handle: int, cs: seq<AuthCommand>)
    requires ToBytes(handle, 4).Some? && AuthAreaBytes(cs).Some?
    ensures IsU32(handle) && AuthCommandsBytes(cs).Some? && forall s | s in SeedSessions(cs) :: s.handle < 0x1_0000_0000
    ensures Marshalling.FieldEncoding(Marshalling.Uint32(handle)) == ToBytes(handle, 4)
    ensures IsEnum(handle) ==> Marshalling.FieldEncoding(Marshalling.EnumUint32(handle)) == ToBytes(handle, 4)
    ensures Marshalling.FieldEncoding(Marshalling.Sessions(ProtoSessionsOf(SeedSessions(cs)))) == AuthAreaBytes(cs)
  {
    hide ToBytes, Marshalling.FieldEncoding, AuthCommandsBytes, SessionsFrom;
    OneField(handle, []);
    SessionsInvert(cs);
    EntriesSurvive(cs);
    AreaSurvives(cs);
  }

  /** TPM2_CreatePrimary, for hierarchies that fit the message's enum. */
  lemma CreatePrimaryAgrees(size: u32, c: CreatePrimary)
    requires CreatePrimaryParams(c).Some? && 10 + |CreatePrimaryParams(c).value| <= 0x10_0000
    requires c.hierarchy < 0x8000_0000
    ensures IsEnum(c.hierarchy) && AuthCommandsBytes(c.sessions).Some?
    ensures forall s | s in SeedSessions(c.sessions) :: s.handle < 0x1_0000_0000
    ensures Marshalling.CommandEncoding(
              Marshalling.CreatePrimary(HeaderWith(0x8002, size, 0x131), c.hierarchy,
                                        ProtoSessionsOf(SeedSessions(c.sessions)), SensitiveCreateBytes(c.sensitive),
                                        PublicBytes(c.public), Tpm2bBytes(c.outsideInfo), PcrListBytes(c.pcrs)))
            == CommandBytes(SeedCommand(0x8002, 0x131, CreatePrimaryParams(c).value))
  {
    hide Be16, Be32, ToBytes, CommandBytes, Concat, Tpm2bBytes, AuthAreaBytes, Marshalling.FieldEncoding,
         PublicBytes, SensitiveCreateBytes, PcrListBytes, SeedSessions, AuthCommandsBytes;
    AreaParts(c.hierarchy, c.sessions);
    OneField(0, SensitiveCreateBytes(c.sensitive).value);
    OneField(0, PublicBytes(c.public).value);
    OneField(0, Tpm2bBytes(c.outsideInfo).value);
    OneField(0, PcrListBytes(c.pcrs).value);
    var parts := [ToBytes(c.hierarchy, 4).value, AuthAreaBytes(c.sessions).value,
                  SensitiveCreateBytes(c.sensitive).value, PublicBytes(c.public).value,
                  Tpm2bBytes(c.outsideInfo).value, PcrListBytes(c.pcrs).value];
    Concat6(parts);
    Agrees(Marshalling.CreatePrimary(HeaderWith(0x8002, size, 0x131), c.hierarchy,
                                     ProtoSessionsOf(SeedSessions(c.sessions)), SensitiveCreateBytes(c.sensitive),
                                     PublicBytes(c.public), Tpm2bBytes(c.outsideInfo), PcrListBytes(c.pcrs)),
           0x8002, 0x131, parts);
  }

  /**
    TPM2_Create: parameters laid out as in CreatePrimary, behind the parent's handle,
    and with the sessions put back.
   */
  lemma CreateAgrees(size: u32, c: CreatePrimary)
    requires CreatePrimaryParams(c).Some? && 10 + |CreatePrimaryParams(c).value| <= 0x10_0000
    ensures IsU32(c.hierarchy) && AuthCommandsBytes(c.sessions).Some?
    ensures forall s | s in SeedSessions(c.sessions) :: s.handle < 0x1_0000_0000
    ensures Marshalling.CommandEncoding(
              Marshalling.Create(HeaderWith(0x8002, size, 0x153), c.hierarchy,
                                 ProtoSessionsOf(SeedSessions(c.sessions)), SensitiveCreateBytes(c.sensitive),
                                 PublicBytes(c.public), Tpm2bBytes(c.outsideInfo), PcrListBytes(c.pcrs)))
            == CommandBytes(SeedCommand(0x8002, 0x153, CreatePrimaryParams(c).value))
  {
    hide Be16, Be32, ToBytes, CommandBytes, Concat, Tpm2bBytes, AuthAreaBytes, Marshalling.FieldEncoding,
         PublicBytes, SensitiveCreateBytes, PcrListBytes, SeedSessions, AuthCommandsBytes;
    AreaParts(c.hierarchy, c.sessions);
    OneField(0, SensitiveCreateBytes(c.sensitive).value);
    OneField(0, PublicBytes(c.public).value);
    OneField(0, Tpm2bBytes(c.outsideInfo).value);
    OneField(0, PcrListBytes(c.pcrs).value);
    var parts := [ToBytes(c.hierarchy, 4).value, AuthAreaBytes(c.sessions).value,
                  SensitiveCreateBytes(c.sensitive).value, PublicBytes(c.public).value,
                  Tpm2bBytes(c.outsideInfo).value, PcrListBytes(c.pcrs).value];
    Concat6(parts);
    Agrees(Marshalling.Create(HeaderWith(0x8002, size, 0x153), c.hierarchy,
                              ProtoSessionsOf(SeedSessions(c.sessions)), SensitiveCreateBytes(c.sensitive),
                              PublicBytes(c.public), Tpm2bBytes(c.outsideInfo), PcrListBytes(c.pcrs)),
           0x8002, 0x153, parts);
  }

  /** TPM2_NV_DefineSpace. */
  lemma NvDefineSpaceAgrees(size: u32, c: NvDefineSpace)
    requires NvDefineSpaceParams(c).Some? && 10 + |NvDefineSpaceParams(c).value| <= 0x10_0000
    ensures IsU32(c.hierarchy) && AuthCommandsBytes(c.sessions).Some?
    ensures forall s | s in SeedSessions(c.sessions) :: s.handle < 0x1_0000_0000
    ensures Marshalling.CommandEncoding(
              Marshalling.NvDefineSpace(HeaderWith(0x8002, size, 0x12A), c.hierarchy,
                                        ProtoSessionsOf(SeedSessions(c.sessions)), Tpm2bBytes(c.auth),
                                        NvPublicBytes(c.public)))
            == CommandBytes(SeedCommand(0x8002, 0x12A, NvDefineSpaceParams(c).value))
  {
    hide Be16, Be32, ToBytes, CommandBytes, Concat, Tpm2bBytes, AuthAreaBytes, Marshalling.FieldEncoding,
         NvPublicBytes, SeedSessions, AuthCommandsBytes;
    AreaParts(c.hierarchy, c.sessions);
    OneField(0, Tpm2bBytes(c.auth).value);
    OneField(0, NvPublicBytes(c.public).value);
    var parts := [ToBytes(c.hierarchy, 4).value, AuthAreaBytes(c.sessions).value, Tpm2bBytes(c.auth).value,
                  NvPublicBytes(c.public).value];
    Concat6(parts);
    Agrees(Marshalling.NvDefineSpace(HeaderWith(0x8002, size, 0x12A), c.hierarchy,
                                     ProtoSessionsOf(SeedSessions(c.sessions)), Tpm2bBytes(c.auth),
                                     NvPublicBytes(c.public)), 0x8002, 0x12A, parts);
  }

  // ---------------------------------------------------------------------------
  // StartAuthSession
  // ---------------------------------------------------------------------------

  /** A StartAuthSession message as the session layer and the TPM see it, whatever the enum values. */
  function Seen(key: Marshalling.int32, bind: Marshalling.int32, nonce: bytes, salt: bytes, kind: Marshalling.int32,
                symmetric: bytes, hash: Marshalling.int32): StartAuthSession.StartAuth
  {
    StartAuthSession.StartAuth(key % 0x1_0000_0000, bind % 0x1_0000_0000, nonce, salt, kind % 0x100, symmetric,
                               hash % 0x1_0000)
  }

  /**
    A marshalled StartAuthSession message is the command with its key, bind, nonce,
    salt, type, symmetric definition and hash, so the layer finds it compatible
    exactly when it is plain.
   */
  lemma StartAuthOnWire(size: u32, key: Marshalling.int32, bind: Marshalling.int32, nonce: bytes, salt: bytes,
                        kind: Marshalling.int32, symmetric: bytes, hash: Marshalling.int32)
    requires |nonce| < 0x1_0000 && |salt| < 0x1_0000 && 2 <= |symmetric| <= 6
    ensures var s := Seen(key, bind, nonce, salt, kind, symmetric, hash);
            var out := Marshalling.CommandEncoding(
              Marshalling.StartAuthSession(HeaderWith(0x8001, size, 0x176), key, bind, Some(Tpm2b(nonce)),
                                           Some(Tpm2b(salt)), kind, Some(symmetric), hash));
            && out == Some(StartAuthSession.EncodeStartAuth(0x8001, s))
            && SessionLayer.OfferIn(out.value) == Some(SessionLayer.Offer(hash % 0x1_0000,
                 && key == 0x4000_0007 && bind == 0x4000_0007 && salt == [] && kind % 0x100 == 0
                 && hash % 0x1_0000 == 0x000B))
  {
    hide Be16, Be32, ToBytes, CommandBytes, Concat, Header, Tpm2b, SessionLayer.OfferIn;
    var s := Seen(key, bind, nonce, salt, kind, symmetric, hash);
    var m := Marshalling.StartAuthSession(HeaderWith(0x8001, size, 0x176), key, bind, Some(Tpm2b(nonce)),
                                          Some(Tpm2b(salt)), kind, Some(symmetric), hash);
    var parts := [Be32(key), Be32(bind), Tpm2b(nonce), Tpm2b(salt), [kind % 0x100], symmetric, Be16(hash)];
    Agrees(m, 0x8001, 0x176, parts);
    StartAuthParts(parts);
    Marshalling.Be32Wraps(key);
    Marshalling.Be32Wraps(bind);
    Marshalling.Be16Wraps(hash % 0x1_0000, hash / 0x1_0000);
    Tpm2bSize(nonce);
    Tpm2bSize(salt);
    CommandBytesForm(SeedCommand(0x8001, 0x176, Concat(parts)));
    var header := Header(0x8001, 10 + |Concat(parts)|, 0x176);
    var after := StartAuthSession.AfterHandles(s);
    assert after == Tpm2b(nonce) + (Tpm2b(salt) + ([kind % 0x100] + symmetric + Be16(hash)));
    assert header + (Be32(key) + (Be32(bind) + after)) == header + Be32(key) + Be32(bind) + after;
    StartAuthSession.CaptureIsFullParse(0x8001, s);
  }

  lemma StartAuthParts(parts: seq<bytes>)
    requires |parts| == 7
    ensures Concat(parts) ==
            parts[0] + (parts[1] + (parts[2] + (parts[3] + (parts[4] + parts[5] + parts[6]))))
  {
    Concat6(parts[..6]);
    ConcatNext(parts, 6);
    Regroup6(parts[0], parts[1], parts[2], parts[3], parts[4], parts[5], parts[6]);
    assert parts[4] + (parts[5] + parts[6]) == parts[4] + parts[5] + parts[6];
  }
}
