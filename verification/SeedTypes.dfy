/**
  The seed generator's encoders (tools/seed-generation/tpm2_types.py) and command
  frames (tools/seed-generation/tpm2_commands.py). An encoder has no result when
  the Python code raises: a value does not fit its field, or a type is not
  supported.
 */
module SeedTypes {
  import opened Bytes
  import opened CommandLayout
  import opened Framing
  import opened Tpm2

  // ---------------------------------------------------------------------------
  // Python's integer conversions and slices
  // ---------------------------------------------------------------------------

  function BigEndian(v: nat, n: nat): (b: bytes)
    ensures |b| == n
    decreases n
  {
    if n == 0 then [] else BigEndian(v / 0x100, n - 1) + [v % 0x100]
  }

  function Capacity(n: nat): nat {
    if n == 0 then 1 else 0x100 * Capacity(n - 1)
  }

  /** v.to_bytes(n, "big"), which raises OverflowError for values that do not fit. */
  function ToBytes(v: int, n: nat): Option<bytes> {
    if 0 <= v < Capacity(n) then Some(BigEndian(v, n)) else None
  }

  /** int.from_bytes(b, "big"). */
  function FromBytes(b: bytes): nat {
    if |b| == 0 then 0 else FromBytes(b[..|b| - 1]) * 0x100 + b[|b| - 1]
  }

  /** b[lo:hi], which never raises. */
  function Slice(b: bytes, lo: nat, hi: nat): bytes {
    var end := if hi < |b| then hi else |b|;
    if lo < end then b[lo..end] else []
  }

  /** For the sizes in use, to_bytes is a big-endian store that checks its range. */
  lemma ToBytesStores(v: int)
    ensures ToBytes(v, 1) == if 0 <= v < 0x100 then Some([v]) else None
    ensures ToBytes(v, 2) == if 0 <= v < 0x1_0000 then Some(Be16(v)) else None
    ensures ToBytes(v, 4) == if 0 <= v < 0x1_0000_0000 then Some(Be32(v)) else None
  {
    assert Capacity(1) == 0x100;
    assert Capacity(2) == 0x1_0000;
    assert Capacity(3) == 0x100_0000;
    assert Capacity(4) == 0x1_0000_0000;
    if 0 <= v {
      assert BigEndian(v, 1) == BigEndian(v / 0x100, 0) + [v % 0x100] == [v % 0x100];
      BigEndian2(v);
      BigEndian2(v / 0x1_0000);
      assert v / 0x100 / 0x100 == v / 0x1_0000;
      assert BigEndian(v, 4) == BigEndian(v / 0x100 / 0x100, 2) + [v / 0x100 % 0x100] + [v % 0x100];
      assert Be32(v) == Be16(v / 0x1_0000) + [v / 0x100 % 0x100] + [v % 0x100];
    }
  }

  lemma BigEndian2(v: nat)
    ensures BigEndian(v, 2) == Be16(v)
  {
    assert BigEndian(v / 0x100, 1) == BigEndian(v / 0x100 / 0x100, 0) + [v / 0x100 % 0x100];
  }

  /** from_bytes undoes to_bytes. */
  lemma {:induction false} FromBytesOfBigEndian(v: nat, n: nat)
    requires v < Capacity(n)
    ensures FromBytes(BigEndian(v, n)) == v
    decreases n
  {
    if n != 0 {
      FromBytesOfBigEndian(v / 0x100, n - 1);
      assert BigEndian(v, n)[..n - 1] == BigEndian(v / 0x100, n - 1);
    }
  }

  // ---------------------------------------------------------------------------
  // Structures
  // ---------------------------------------------------------------------------

  /** A TPM2B: the length in two bytes, then the bytes. */
  function Tpm2bBytes(data: bytes): Option<bytes> {
    var size :- ToBytes(|data|, 2);
    Some(size + data)
  }

  datatype AuthCommand = AuthCommand(sessionHandle: int, nonce: bytes, attributes: int, hmac: bytes)

  function AuthCommandBytes(c: AuthCommand): Option<bytes> {
    var sh :- ToBytes(c.sessionHandle, 4);
    var nonce :- Tpm2bBytes(c.nonce);
    var attrs :- ToBytes(c.attributes, 1);
    var hmac :- Tpm2bBytes(c.hmac);
    Some(sh + nonce + attrs + hmac)
  }

  /** The concatenation of all encodings, if every one exists. */
  function AuthCommandsBytes(cs: seq<AuthCommand>): Option<bytes> {
    if |cs| == 0 then Some([])
    else
      var first :- AuthCommandBytes(cs[0]);
      var others :- AuthCommandsBytes(cs[1..]);
      Some(first + others)
  }

  function AuthAreaBytes(cs: seq<AuthCommand>): Option<bytes> {
    var body :- AuthCommandsBytes(cs);
    var size :- ToBytes(|body|, 4);
    Some(size + body)
  }

  datatype SensitiveCreate = SensitiveCreate(userAuth: bytes, data: bytes)

  function SensitiveCreateBytes(s: SensitiveCreate): Option<bytes> {
    var ua :- Tpm2bBytes(s.userAuth);
    var d :- Tpm2bBytes(s.data);
    Tpm2bBytes(ua + d)
  }

  datatype SymDef = SymDef(algorithm: int, keyBits: int, mode: int)

  /** ALG_NULL comes without key bits and mode. */
  function SymDefBytes(s: SymDef): Option<bytes> {
    var alg :- ToBytes(s.algorithm, 2);
    if s.algorithm == ALG_NULL then Some(alg)
    else
      var keyBits :- ToBytes(s.keyBits, 2);
      var mode :- ToBytes(s.mode, 2);
      Some(alg + keyBits + mode)
  }

  datatype RsaParms =
    RsaParms(symmetric: SymDef, scheme: int, schemeHash: Option<int>, keyBits: int, exponent: int)

  function RsaParmsBytes(p: RsaParms): Option<bytes> {
    var sym :- SymDefBytes(p.symmetric);
    var scheme :- ToBytes(p.scheme, 2);
    var hash :- if p.scheme != ALG_NULL && p.schemeHash.Some? then ToBytes(p.schemeHash.value, 2) else Some([]);
    var keyBits :- ToBytes(p.keyBits, 2);
    var exponent :- ToBytes(p.exponent, 4);
    Some(sym + (scheme + hash) + keyBits + exponent)
  }

  datatype KeyedHashParms = KeyedHashParms(scheme: int, hashAlg: Option<int>)

  function KeyedHashParmsBytes(p: KeyedHashParms): Option<bytes> {
    var scheme :- ToBytes(p.scheme, 2);
    var hash :- if p.scheme == ALG_HMAC && p.hashAlg.Some? then ToBytes(p.hashAlg.value, 2) else Some([]);
    Some(scheme + hash)
  }

  datatype PublicArea = PublicArea(
    kind: int, nameAlg: int, attributes: int, authPolicy: bytes, rsa: Option<RsaParms>,
    keyedHash: Option<KeyedHashParms>, unique: bytes)

  /** The parameters of a public area: RSA ones must be given, KEYEDHASH ones default to a null scheme. */
  function ParmsBytes(p: PublicArea): Option<bytes> {
    if p.kind == ALG_RSA then
      var rsa :- p.rsa;
      RsaParmsBytes(rsa)
    else if p.kind == ALG_KEYEDHASH then KeyedHashParmsBytes(KeyedHashOf(p))
    else None
  }

  function KeyedHashOf(p: PublicArea): KeyedHashParms {
    if p.keyedHash.Some? then p.keyedHash.value else KeyedHashParms(ALG_NULL, None)
  }

  function PublicAreaBytes(p: PublicArea): Option<bytes> {
    var kind :- ToBytes(p.kind, 2);
    var nameAlg :- ToBytes(p.nameAlg, 2);
    var attrs :- ToBytes(p.attributes, 4);
    var auth :- Tpm2bBytes(p.authPolicy);
    var parms :- ParmsBytes(p);
    var unique :- Tpm2bBytes(p.unique);
    Some(kind + nameAlg + attrs + auth + parms + unique)
  }

  function PublicBytes(p: PublicArea): Option<bytes> {
    var area :- PublicAreaBytes(p);
    Tpm2bBytes(area)
  }

  datatype PcrSelection = PcrSelection(hash: int, select: bytes)

  function PcrSelectionBytes(s: PcrSelection): Option<bytes> {
    var alg :- ToBytes(s.hash, 2);
    var size :- ToBytes(|s.select|, 1);
    Some(alg + size + s.select)
  }

  function PcrSelectionsBytes(ss: seq<PcrSelection>): Option<bytes> {
    if |ss| == 0 then Some([])
    else
      var first :- PcrSelectionBytes(ss[0]);
      var others :- PcrSelectionsBytes(ss[1..]);
      Some(first + others)
  }

  function PcrListBytes(ss: seq<PcrSelection>): Option<bytes> {
    var count :- ToBytes(|ss|, 4);
    var body :- PcrSelectionsBytes(ss);
    Some(count + body)
  }

  datatype NvPublic = NvPublic(nvIndex: int, nameAlg: int, attributes: int, authPolicy: bytes, dataSize: int)

  function NvPublicBytes(p: NvPublic): Option<bytes> {
    var index :- ToBytes(p.nvIndex, 4);
    var name :- ToBytes(p.nameAlg, 2);
    var attrs :- ToBytes(p.attributes, 4);
    var policy :- Tpm2bBytes(p.authPolicy);
    var size :- ToBytes(p.dataSize, 2);
    Tpm2bBytes(index + name + attrs + policy + size)
  }

  // ---------------------------------------------------------------------------
  // Structures in terms of stores
  // ---------------------------------------------------------------------------

  // For which values an encoding exists, and what it is.

  predicate Fits16(v: int) {
    0 <= v < 0x1_0000
  }

  predicate Fits32(v: int) {
    0 <= v < 0x1_0000_0000
  }

  lemma Tpm2bForm(data: bytes)
    ensures Tpm2bBytes(data) == if |data| < 0x1_0000 then Some(Be16(|data|) + data) else None
  {
    ToBytesStores(|data|);
  }

  lemma AuthCommandForm(c: AuthCommand)
    ensures AuthCommandBytes(c) ==
            if Fits32(c.sessionHandle) && |c.nonce| < 0x1_0000 && 0 <= c.attributes < 0x100 && |c.hmac| < 0x1_0000
            then Some(Be32(c.sessionHandle) + Tpm2b(c.nonce) + [c.attributes] + Tpm2b(c.hmac)) else None
  {
    hide ToBytes, Be16, Be32;
    ToBytesStores(c.sessionHandle);
    ToBytesStores(c.attributes);
    ToBytesStores(|c.nonce|);
    ToBytesStores(|c.hmac|);
  }

  lemma SensitiveForm(s: SensitiveCreate)
    ensures SensitiveCreateBytes(s) ==
            if 4 + |s.userAuth| + |s.data| < 0x1_0000
            then Some(Be16(4 + |s.userAuth| + |s.data|) + (Tpm2b(s.userAuth) + Tpm2b(s.data))) else None
  {
    hide ToBytes, Be16;
    ToBytesStores(|s.userAuth|);
    ToBytesStores(|s.data|);
    ToBytesStores(4 + |s.userAuth| + |s.data|);
  }

  lemma SymDefForm(s: SymDef)
    ensures SymDefBytes(s) ==
            if s.algorithm == 0x0010 then Some([0x00, 0x10])
            else if Fits16(s.algorithm) && Fits16(s.keyBits) && Fits16(s.mode)
            then Some(Be16(s.algorithm) + Be16(s.keyBits) + Be16(s.mode)) else None
  {
    ToBytesStores(s.algorithm);
    ToBytesStores(s.keyBits);
    ToBytesStores(s.mode);
  }

  /** The parameters of an RSA key; a scheme's hash follows it only if one is given and the scheme is not ALG_NULL. */
  lemma RsaParmsForm(p: RsaParms)
    requires SymDefBytes(p.symmetric).Some? && Fits16(p.scheme) && Fits16(p.keyBits) && Fits32(p.exponent)
    requires p.scheme != 0x0010 && p.schemeHash.Some? ==> Fits16(p.schemeHash.value)
    ensures RsaParmsBytes(p) ==
            Some(SymDefBytes(p.symmetric).value
                 + (Be16(p.scheme)
                    + (if p.scheme != 0x0010 && p.schemeHash.Some? then Be16(p.schemeHash.value) else []))
                 + Be16(p.keyBits) + Be32(p.exponent))
  {
    hide ToBytes, Be16, Be32;
    ToBytesStores(p.scheme);
    ToBytesStores(p.keyBits);
    ToBytesStores(p.exponent);
    if p.schemeHash.Some? {
      ToBytesStores(p.schemeHash.value);
    }
  }

  /** The parameters of a keyed hash: only the HMAC scheme has a hash. */
  lemma KeyedHashParmsForm(p: KeyedHashParms)
    requires Fits16(p.scheme) && (p.scheme == 0x0005 && p.hashAlg.Some? ==> Fits16(p.hashAlg.value))
    ensures KeyedHashParmsBytes(p) ==
            Some(Be16(p.scheme) + if p.scheme == 0x0005 && p.hashAlg.Some? then Be16(p.hashAlg.value) else [])
  {
    hide ToBytes, Be16;
    ToBytesStores(p.scheme);
    if p.hashAlg.Some? {
      ToBytesStores(p.hashAlg.value);
    }
  }

  /**
    A public area: RSA keys need parameters, a keyed hash has a null scheme unless one
    is given, and no other type is written.
   */
  lemma PublicForm(p: PublicArea)
    ensures p.kind == 0x0001 ==> ParmsBytes(p) == (if p.rsa.Some? then RsaParmsBytes(p.rsa.value) else None)
    ensures p.kind == 0x0008 ==>
              ParmsBytes(p) == if p.keyedHash.Some? then KeyedHashParmsBytes(p.keyedHash.value) else Some([0x00, 0x10])
    ensures p.kind != 0x0001 && p.kind != 0x0008 ==> PublicBytes(p).None?
    ensures PublicBytes(p).Some? ==>
              && Fits16(p.kind) && Fits16(p.nameAlg) && Fits32(p.attributes) && ParmsBytes(p).Some?
              && var area := Be16(p.kind) + Be16(p.nameAlg) + Be32(p.attributes) + Tpm2b(p.authPolicy)
                             + ParmsBytes(p).value + Tpm2b(p.unique);
              PublicBytes(p).value == Be16(|area|) + area
  {
    hide ToBytes, Be16, Be32, RsaParmsBytes;
    ToBytesStores(p.kind);
    ToBytesStores(p.nameAlg);
    ToBytesStores(p.attributes);
    ToBytesStores(|p.authPolicy|);
    ToBytesStores(|p.unique|);
    if PublicAreaBytes(p).Some? {
      ToBytesStores(|PublicAreaBytes(p).value|);
    }
    if p.kind == 0x0008 && p.keyedHash.None? {
      KeyedHashParmsForm(KeyedHashParms(0x0010, None));
      ByteOrder(0x00, 0x10, 0, 0);
      assert [0x00, 0x10] + [] == [0x00, 0x10];
    }
  }

  lemma PcrSelectionForm(s: PcrSelection)
    ensures PcrSelectionBytes(s) ==
            if Fits16(s.hash) && |s.select| < 0x100 then Some(Be16(s.hash) + [|s.select|] + s.select) else None
  {
    hide ToBytes, Be16;
    ToBytesStores(s.hash);
    ToBytesStores(|s.select|);
  }

  lemma NvPublicForm(p: NvPublic)
    ensures NvPublicBytes(p).Some? <==>
            && Fits32(p.nvIndex) && Fits16(p.nameAlg) && Fits32(p.attributes) && Fits16(p.dataSize)
            && 14 + |p.authPolicy| < 0x1_0000
    ensures NvPublicBytes(p).Some? ==>
              NvPublicBytes(p).value == Be16(14 + |p.authPolicy|)
                + (Be32(p.nvIndex) + Be16(p.nameAlg) + Be32(p.attributes) + Tpm2b(p.authPolicy) + Be16(p.dataSize))
  {
    hide ToBytes, Be16, Be32;
    ToBytesStores(p.nvIndex);
    ToBytesStores(p.nameAlg);
    ToBytesStores(p.attributes);
    ToBytesStores(p.dataSize);
    ToBytesStores(|p.authPolicy|);
    ToBytesStores(14 + |p.authPolicy|);
  }

  // ---------------------------------------------------------------------------
  // Commands
  // ---------------------------------------------------------------------------

  datatype SeedCommand = SeedCommand(tag: int, code: int, params: bytes)

  /** TPMCommand.__bytes__. */
  function CommandBytes(c: SeedCommand): Option<bytes> {
    var tag :- ToBytes(c.tag, 2);
    var size :- ToBytes(10 + |c.params|, 4);
    var code :- ToBytes(c.code, 4);
    Some(tag + size + code + c.params)
  }

  lemma CommandBytesForm(c: SeedCommand)
    ensures CommandBytes(c).Some? <==>
            0 <= c.tag < 0x1_0000 && 0 <= c.code < 0x1_0000_0000 && 10 + |c.params| < 0x1_0000_0000
    ensures CommandBytes(c).Some? ==>
              CommandBytes(c).value == Header(c.tag, 10 + |c.params|, c.code) + c.params
  {
    hide Be16, Be32, ToBytes;
    ToBytesStores(c.tag);
    ToBytesStores(10 + |c.params|);
    ToBytesStores(c.code);
  }

  /** _serialize_sequence: the commands' bytes, joined. */
  function SerializeSequence(cs: seq<SeedCommand>): Option<bytes> {
    if |cs| == 0 then Some([])
    else
      var first :- CommandBytes(cs[0]);
      var others :- SerializeSequence(cs[1..]);
      Some(first + others)
  }

  function AllCommandBytes(cs: seq<SeedCommand>): (fs: seq<bytes>)
    requires SerializeSequence(cs).Some?
    ensures |fs| == |cs| && forall i | 0 <= i < |cs| :: CommandBytes(cs[i]) == Some(fs[i])
  {
    if |cs| == 0 then [] else [CommandBytes(cs[0]).value] + AllCommandBytes(cs[1..])
  }

  lemma {:induction false} SerializedIsConcat(cs: seq<SeedCommand>)
    requires SerializeSequence(cs).Some?
    ensures Concat(AllCommandBytes(cs)) == SerializeSequence(cs).value && AllFrames(AllCommandBytes(cs))
  {
    hide CommandBytes, Header;
    if |cs| != 0 {
      SerializedIsConcat(cs[1..]);
      var fs := AllCommandBytes(cs);
      assert fs[0] == CommandBytes(cs[0]).value && fs[1..] == AllCommandBytes(cs[1..]);
      CommandBytesForm(cs[0]);
      HeaderFields(fs[0], cs[0].tag, |fs[0]|, cs[0].code);
      assert fs == [fs[0]] + fs[1..];
    }
  }

  /** Framing inverts the serializer: a serialized sequence splits into exactly the commands' bytes. */
  lemma FramingInvertsSerializer(cs: seq<SeedCommand>, commands: seq<bytes>)
    requires SerializeSequence(cs).Some?
    requires AllFrames(commands) && Concat(commands) <= SerializeSequence(cs).value
    requires forall fs | AllFrames(fs) && Concat(fs) <= SerializeSequence(cs).value :: fs <= commands
    ensures commands == AllCommandBytes(cs) && Concat(commands) == SerializeSequence(cs).value
  {
    SerializedIsConcat(cs);
    LongestCoversFramedStreams(SerializeSequence(cs).value, commands);
  }
}
