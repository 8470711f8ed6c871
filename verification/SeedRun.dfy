/**
  One seed from end to end, byte by byte: a StartAuthSession and an NV_DefineSpace
  under its session (seeds/bytearray/TPMNVDefineSpace-variant1-202606042300).
 */
module SeedRun {
  import opened Bytes
  import opened CommandAttributes
  import opened CommandLayout
  import opened PatchTheory
  import opened ResponseTheory
  import opened SeedCommands
  import opened SeedTypes
  import opened SessionLayer
  import opened StartAuthSession
  import opened Tpm2

  const NONCE: bytes :=
    [0xF6, 0x5C, 0xD5, 0x7F, 0x19, 0xFF, 0xD9, 0xC8, 0xC9, 0x41, 0x64, 0xAC, 0x84, 0xD1, 0xF9, 0xCD]

  /** The first command in the seed. */
  function Start(): bytes {
    [0x80, 0x01, 0, 0, 0, 0x2B, 0, 0, 0x01, 0x76]
    + [0x40, 0, 0, 0x07]
    + [0x40, 0, 0, 0x07]
    + ([0, 0x10] + NONCE + ([0, 0] + ([0] + [0, 0x10] + [0, 0x0B])))
  }

  /** The parameters of the second: an empty authorization value and the public area of the index. */
  const NV_PARAMS: bytes :=
    [0, 0, 0, 0x0E, 0x01, 0, 0, 0, 0, 0x0B, 0x02, 0x02, 0, 0x02, 0, 0, 0, 0x20]

  /** The second command. */
  function Define(): bytes {
    [0x80, 0x02, 0, 0, 0, 0x2D, 0, 0, 0x01, 0x2A]
    + [0x40, 0, 0, 0x01]
    + ([0, 0, 0, 0x09] + ([0x02, 0, 0, 0] + [0, 0] + [0] + [0, 0]))
    + NV_PARAMS
  }

  /** The TPM's answer to the first. */
  function Answer(nonce: bytes): bytes {
    [0x80, 0x01, 0, 0, 0, 0x20, 0, 0, 0, 0] + ([0x02, 0, 0, 0] + ([0, 0x10] + nonce))
  }

  lemma StartIsWritten()
    ensures Start() == EncodeStartAuth(0x8001, StartAuthSession.StartAuth(0x4000_0007, 0x4000_0007, NONCE, [], 0,
                                                                          [0, 0x10], 0x000B))
  {
    hide Be16, Be32;
    ByteOrder(0x80, 0x01, 0, 0);
    ByteOrder(0, 0, 0, 0x2B);
    ByteOrder(0, 0, 0x01, 0x76);
    ByteOrder(0x40, 0, 0, 0x07);
    ByteOrder(0, 0x10, 0, 0);
    ByteOrder(0, 0x0B, 0, 0);
    ByteOrder(0, 0, 0, 0);
    assert Tpm2b(NONCE) == [0, 0x10] + NONCE && Tpm2b([]) == [0, 0];
  }

  /** The second command as a value. */
  function DefineCommand(): Command {
    Command(0x8002, 0x12A, [0x4000_0001], [AuthEntry(0x200_0000, [], 0, [])], NV_PARAMS)
  }

  lemma DefineIsWritten()
    ensures Define() == EncodeCommand(DefineCommand()) && DefineCommand().WellFormed() && |Define()| == 45
  {
    hide Be16, Be32;
    ByteOrder(0x80, 0x02, 0, 0);
    ByteOrder(0, 0, 0, 0x2D);
    ByteOrder(0, 0, 0x01, 0x2A);
    ByteOrder(0x40, 0, 0, 0x01);
    ByteOrder(0, 0, 0, 0x09);
    ByteOrder(0x02, 0, 0, 0);
    ByteOrder(0, 0, 0, 0);
    var c := DefineCommand();
    EncodeOneEntry(c.auth[0]);
    assert c.auth == [c.auth[0]];
    assert Tpm2b([]) == [0, 0];
    assert HandleBytes([0x4000_0001]) == Be32(0x4000_0001) + HandleBytes([0x4000_0001][1..]) == [0x40, 0, 0, 0x01];
  }

  /** The layer after the first command and its answer: armed with the new session. */
  lemma SessionStarts(nonce: bytes)
    requires |nonce| == 16
    ensures var l := AfterResponse(AfterCommand(RESET, Start(), |Start()| + 64), Answer(nonce));
            l == Layer(true, 0x200_0000, 0x000B, 32, nonce, [], 0, [], false, false, 0)
  {
    hide Be16, Be32, Read16, Read32, TakeTpm2b, OfferIn;
    StartIsWritten();
    var s := StartAuthSession.StartAuth(0x4000_0007, 0x4000_0007, NONCE, [], 0, [0, 0x10], 0x000B);
    StartAuthFields(0x8001, s);
    CaptureIsFullParse(0x8001, s);
    ByteOrder(0x80, 0x01, 0, 0);
    ByteOrder(0, 0, 0, 0x20);
    ByteOrder(0, 0, 0, 0);
    ByteOrder(0x02, 0, 0, 0);
    ByteOrder(0, 0x10, 0, 0);
    assert Answer(nonce) == EncodeStartAuthResponse(0x200_0000, nonce);
    StartAuthResponseFields(0x200_0000, nonce);
  }

  /**
    The second command as it is sent: 48 bytes longer, with the layer's nonce and the
    HMAC over the hash of code, Name of the owner and parameters.
   */
  lemma DefineIsAuthorized(crypto: Crypto, nonce: bytes)
    requires |nonce| == 16
    ensures var l := Layer(true, 0x200_0000, 0x000B, 32, nonce, [], 0, [], false, false, 0);
            var fill := seq(16, i => 0xAA);
            var pHash := crypto.sha256([0, 0, 0x01, 0x2A] + [0x40, 0, 0, 0x01] + NV_PARAMS);
            Patched(crypto, l, Define(), 45 + 64) ==
              [0x80, 0x02] + [0, 0, 0, 0x5D] + [0, 0, 0x01, 0x2A] + [0x40, 0, 0, 0x01]
              + ([0, 0, 0, 57]
                 + ([0x02, 0, 0, 0] + ([0, 16] + fill) + [0]
                    + ([0, 32] + crypto.hmac([], pHash + fill + nonce + [0]))))
              + NV_PARAMS
  {
    hide Be16, Be32, Read16, Read32, ParseCommand, EncodeCommand, Patched;
    var l := Layer(true, 0x200_0000, 0x000B, 32, nonce, [], 0, [], false, false, 0);
    var c := DefineCommand();
    DefineIsWritten();
    CommandFields(c);
    ParseCommandOfEncode(c);
    TableByNumber(0x12A);
    OwnerIsNamed(l);
    assert Target(l, Define()) == Some(c);
    HeadroomSuffices(crypto, l, Define(), 45 + 64);
    PatchedBytes(crypto, l, Define(), 45 + 64);
    assert Define()[10..14] == [0x40, 0, 0, 0x01];
    ByteOrder(0x80, 0x02, 0, 0);
    ByteOrder(0, 0, 0, 0x5D);
    ByteOrder(0, 0, 0x01, 0x2A);
    ByteOrder(0x02, 0, 0, 0);
  }

  lemma OwnerIsNamed(l: Layer)
    ensures NamesOf(l.names, [0x4000_0001]) == Some([0x40, 0, 0, 0x01])
  {
    hide Be32;
    ByteOrder(0x40, 0, 0, 0x01);
    NameByRange(l.names, 0x4000_0001);
    assert [0x4000_0001 as u32][1..] == [] && NamesOf(l.names, []) == Some([]);
    assert [0x40, 0, 0, 0x01] + [] == [0x40, 0, 0, 0x01];
  }

  /** The generator writes both commands. */
  lemma GeneratorWritesSeed()
    ensures StartAuthBytes(SeedCommands.StartAuth(0x4000_0007, 0x4000_0007, NONCE, [], 0, SymDef(0x10, 0, 0), 0xB))
            == Some(Start())
    ensures NvDefineSpaceParams(GeneratedDefine()).Some?
    ensures CommandBytes(SeedCommand(0x8002, 0x12A, NvDefineSpaceParams(GeneratedDefine()).value)) == Some(Define())
  {
    StartWritten();
    DefineWritten();
  }

  lemma StartWritten()
    ensures StartAuthBytes(SeedCommands.StartAuth(0x4000_0007, 0x4000_0007, NONCE, [], 0, SymDef(0x10, 0, 0), 0xB))
            == Some(Start())
  {
    hide Be16, Be32, ToBytes, Tpm2bBytes, SymDefBytes, SessionLayer.OfferIn;
    var s := SeedCommands.StartAuth(0x4000_0007, 0x4000_0007, NONCE, [], 0, SymDef(0x10, 0, 0), 0xB);
    ToBytesStores(0x4000_0007);
    Tpm2bForm(NONCE);
    Tpm2bForm([]);
    SymDefForm(SymDef(0x10, 0, 0));
    ToBytesStores(0);
    ToBytesStores(0xB);
    CommandBytesForm(SeedCommand(ST_NO_SESSIONS, CC_START_AUTH_SESSION, StartAuthParams(s).value));
    GeneratedStartAuthIsCaptured(s);
    StartIsWritten();
  }

  /** The generator's NV_DefineSpace. */
  function GeneratedDefine(): SeedCommands.NvDefineSpace {
    SeedCommands.NvDefineSpace(0x4000_0001, [AuthCommand(0x200_0000, [], 0, [])], [],
                               NvPublic(0x100_0000, 0xB, 0x202_0002, [], 32))
  }

  /** Its area and its public part. */
  lemma AreaWritten()
    ensures AuthAreaBytes(GeneratedDefine().sessions)
            == Some([0, 0, 0, 0x09] + ([0x02, 0, 0, 0] + [0, 0] + [0] + [0, 0]))
  {
    hide Be16, Be32, ToBytes, AuthCommandBytes;
    var a := AuthCommand(0x200_0000, [], 0, []);
    AuthCommandForm(a);
    ToBytesStores(9);
    ByteOrder(0, 0, 0, 0x09);
    ByteOrder(0x02, 0, 0, 0);
    ByteOrder(0, 0, 0, 0);
    assert Tpm2b([]) == [0, 0];
    var entry := [0x02, 0, 0, 0] + [0, 0] + [0] + [0, 0];
    assert AuthCommandBytes(a) == Some(entry);
    assert [a][1..] == [] && AuthCommandsBytes([]) == Some([]) && AuthCommandsBytes([a]) == Some(entry + []);
    assert entry + [] == entry && |entry| == 9;
  }

  lemma PublicWritten()
    ensures NvPublicBytes(GeneratedDefine().public)
            == Some([0, 0x0E] + ([0x01, 0, 0, 0] + [0, 0x0B] + [0x02, 0x02, 0, 0x02] + [0, 0] + [0, 0x20]))
  {
    hide Be16, Be32, NvPublicBytes;
    NvPublicForm(GeneratedDefine().public);
    ByteOrder(0, 0x0E, 0, 0);
    ByteOrder(0x01, 0, 0, 0);
    ByteOrder(0, 0x0B, 0, 0);
    ByteOrder(0x02, 0x02, 0, 0x02);
    ByteOrder(0, 0x20, 0, 0);
    ByteOrder(0, 0, 0, 0);
    assert Tpm2b([]) == [0, 0];
  }

  lemma DefineWritten()
    ensures NvDefineSpaceParams(GeneratedDefine()).Some?
    ensures CommandBytes(SeedCommand(0x8002, 0x12A, NvDefineSpaceParams(GeneratedDefine()).value)) == Some(Define())
  {
    hide Be16, Be32, ToBytes, Tpm2bBytes, NvPublicBytes, AuthAreaBytes, CommandBytes, Header;
    AreaWritten();
    PublicWritten();
    ToBytesStores(0x4000_0001);
    ByteOrder(0x40, 0, 0, 0x01);
    Tpm2bForm([]);
    ByteOrder(0, 0, 0, 0);
    var area := [0, 0, 0, 0x09] + ([0x02, 0, 0, 0] + [0, 0] + [0] + [0, 0]);
    var nv := [0, 0x0E] + ([0x01, 0, 0, 0] + [0, 0x0B] + [0x02, 0x02, 0, 0x02] + [0, 0] + [0, 0x20]);
    assert [0, 0] + [] == [0, 0];
    var params := [0x40, 0, 0, 0x01] + area + [0, 0] + nv;
    assert NvDefineSpaceParams(GeneratedDefine()) == Some(params);
    CommandBytesForm(SeedCommand(0x8002, 0x12A, params));
    SeedHeader();
    assert [0, 0] + nv == NV_PARAMS;
    Joined(Header(0x8002, 45, 0x12A), [0x40, 0, 0, 0x01], area, [0, 0], nv);
  }

  lemma Joined(a: bytes, b: bytes, c: bytes, d: bytes, e: bytes)
    ensures a + (b + c + d + e) == a + b + c + (d + e)
  {
  }

  lemma SeedHeader()
    ensures Header(0x8002, 45, 0x12A) == [0x80, 0x02, 0, 0, 0, 0x2D, 0, 0, 0x01, 0x2A]
  {
    hide Be16, Be32;
    ByteOrder(0x80, 0x02, 0, 0);
    ByteOrder(0, 0, 0, 0x2D);
    ByteOrder(0, 0, 0x01, 0x2A);
  }
}
