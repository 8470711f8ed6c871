/**
  The HMAC session layer on values: its state, and what patching a command and
  processing a response mean. The class SessionAuth does the same on buffers.
 */
module SessionLayer {
  import opened Bytes
  import opened CommandAttributes
  import opened CommandLayout
  import opened Names
  import opened Tpm2

  const NONCE_CALLER_FILL: byte := 0xAA
  const NONCE_CALLER_SIZE := 16

  /** The fixed nonce of every command the layer authorizes. */
  const NONCE_CALLER: bytes := Filled(NONCE_CALLER_SIZE, NONCE_CALLER_FILL)

  const MAX_DIGEST := 64

  function Filled(n: nat, fill: byte): (b: bytes)
    ensures |b| == n && forall i | 0 <= i < n :: b[i] == fill
  {
    seq(n, i => fill)
  }

  type Digest = b: bytes | |b| == 32 witness seq(32, i => 0)

  /** SHA-256 and HMAC-SHA256 (key, then message), about which nothing more is assumed. */
  datatype Crypto = Crypto(sha256: bytes -> Digest, hmac: (bytes, bytes) -> Digest)

  datatype Layer = Layer(
    initialized: bool,
    handle: u32,
    hashAlg: u16,
    digestSize: nat,
    nonceTpm: bytes,
    sessionKey: bytes,
    lastCommandCode: u32,
    names: seq<NameEntry>,
    pending: bool,
    compatible: bool,
    authHash: u16)

  const RESET := Layer(false, 0, 0, 0, [], [], 0, [], false, false, 0)

  function DigestSizeFor(alg: u16): nat {
    if alg == ALG_SHA256 then 32 else 0
  }

  /** At most a digest buffer's worth of bytes. */
  function Clip(b: bytes): (r: bytes)
    ensures |r| <= MAX_DIGEST && r <= b
  {
    if |b| > MAX_DIGEST then b[..MAX_DIGEST] else b
  }

  /** The session handle as others are told: 0 without a session. */
  function SessionHandle(l: Layer): u32 {
    if l.initialized then l.handle else 0
  }

  function Armed(handle: u32, nonceTpm: bytes, sessionKey: bytes, alg: u16): Layer {
    Layer(true, handle, alg, DigestSizeFor(alg), Clip(nonceTpm), Clip(sessionKey), 0, [], false, false, 0)
  }

  // ---------------------------------------------------------------------------
  // Names, cpHash and HMAC
  // ---------------------------------------------------------------------------

  /** Handles whose Name is their own 4-byte value: permanent, PCR and session handles. */
  predicate NamedByValue(handle: u32) {
    handle / 0x100_0000 in {0x40, 0x00, 0x02, 0x03}
  }

  /** Transient and persistent handles are named by the objects they refer to. */
  predicate NamedByObject(handle: u32) {
    handle / 0x100_0000 in {0x80, 0x81}
  }

  /** The Name of a handle, empty when the layer does not know it. */
  function HandleName(names: seq<NameEntry>, handle: u32): bytes {
    if NamedByObject(handle) then NameIn(names, handle)
    else if NamedByValue(handle) then Be32(handle)
    else []
  }

  /** By handle ranges: PCRs, HMAC and policy sessions and permanent handles name themselves, objects are looked up. */
  lemma NameByRange(names: seq<NameEntry>, handle: u32)
    ensures handle < 0x0100_0000 || 0x0200_0000 <= handle < 0x0400_0000 || 0x4000_0000 <= handle < 0x4100_0000 ==>
              HandleName(names, handle) == Be32(handle)
    ensures 0x8000_0000 <= handle < 0x8200_0000 ==> HandleName(names, handle) == NameIn(names, handle)
    ensures (0x0100_0000 <= handle < 0x0200_0000 || 0x0400_0000 <= handle < 0x4000_0000
             || 0x4100_0000 <= handle < 0x8000_0000 || 0x8200_0000 <= handle) ==> HandleName(names, handle) == []
  {
  }

  /** The Names of all handles in order, if every one is known. */
  function NamesOf(names: seq<NameEntry>, handles: seq<u32>): Option<bytes> {
    if |handles| == 0 then Some([])
    else if HandleName(names, handles[0]) == [] then None
    else
      var others :- NamesOf(names, handles[1..]);
      Some(HandleName(names, handles[0]) + others)
  }

  function CpHash(crypto: Crypto, code: u32, names: bytes, params: bytes): Digest {
    crypto.sha256(Be32(code) + names + params)
  }

  function AuthHmac(crypto: Crypto, key: bytes, cpHash: Digest, nonceCaller: bytes, nonceTpm: bytes,
                    attributes: byte): Digest
  {
    crypto.hmac(key, cpHash + nonceCaller + nonceTpm + [attributes])
  }

  // ---------------------------------------------------------------------------
  // Patching a command
  // ---------------------------------------------------------------------------

  /** The layer looks at a buffer only if its header names the command's size. */
  predicate Framed(cmd: bytes, capacity: nat) {
    10 <= |cmd| <= capacity && Read32(cmd, 2) == |cmd|
  }

  /** The command the layer would authorize: one entry, for its session, with all Names known. */
  function Target(l: Layer, cmd: bytes): (r: Option<Command>)
    requires 10 <= |cmd|
    ensures r.Some? ==>
      && Known(Read32(cmd, 6)) && ParseCommand(cmd, HandleCount(Read32(cmd, 6))) == Some(r.value)
      && r.value.code == Read32(cmd, 6) && |r.value.auth| == 1 && NamesOf(l.names, r.value.handles).Some?
  {
    var code := Read32(cmd, 6);
    if code == CC_START_AUTH_SESSION || !l.initialized || l.digestSize == 0
       || Read16(cmd, 0) != ST_SESSIONS || !Known(code)
    then None
    else
      var c :- ParseCommand(cmd, HandleCount(code));
      if |c.auth| == 1 && c.auth[0].handle == l.handle && NamesOf(l.names, c.handles).Some?
      then Some(c) else None
  }

  function AuthorizedEntry(crypto: Crypto, l: Layer, c: Command): AuthEntry
    requires |c.auth| == 1 && NamesOf(l.names, c.handles).Some?
  {
    AuthEntry(c.auth[0].handle, NONCE_CALLER, c.auth[0].attributes,
              AuthHmac(crypto, l.sessionKey, CpHash(crypto, c.code, NamesOf(l.names, c.handles).value, c.params),
                       NONCE_CALLER, l.nonceTpm, c.auth[0].attributes))
  }

  /** c with the authorization the TPM expects for the layer's session. */
  function Authorized(crypto: Crypto, l: Layer, c: Command): (r: Command)
    requires |c.auth| == 1 && NamesOf(l.names, c.handles).Some?
    ensures r == c.(auth := r.auth) && |r.auth| == 1 && |r.auth[0].hmac| == 32
  {
    Command(c.tag, c.code, c.handles, [AuthorizedEntry(crypto, l, c)], c.params)
  }

  /** Whether patching rewrites the command rather than passing it through. */
  predicate Patches(crypto: Crypto, l: Layer, cmd: bytes, capacity: nat) {
    Framed(cmd, capacity) && Target(l, cmd).Some?
    && CommandSize(Authorized(crypto, l, Target(l, cmd).value)) <= capacity
  }

  /** The command as it is sent. */
  function Patched(crypto: Crypto, l: Layer, cmd: bytes, capacity: nat): bytes {
    if Patches(crypto, l, cmd, capacity) then EncodeCommand(Authorized(crypto, l, Target(l, cmd).value))
    else cmd
  }

  /** What the layer reads off a StartAuthSession command. */
  datatype Offer = Offer(authHash: u16, compatible: bool)

  /** The hash is read from the tail, so the symmetric field need not be parsed. */
  function OfferIn(cmd: bytes): (r: Option<Offer>)
    ensures r.Some? && r.value.compatible ==> r.value.authHash == ALG_SHA256
  {
    if |cmd| < 27 then None
    else
      var nonce :- TakeTpm2b(cmd[18..]);
      var salt :- TakeTpm2b(nonce.rest);
      if |salt.rest| < 1 then None
      else
        var authHash := Read16(cmd, |cmd| - 2);
        Some(Offer(authHash,
                   && Read32(cmd, 10) == RH_NULL && Read32(cmd, 14) == RH_NULL
                   && salt.payload == [] && salt.rest[0] == SE_HMAC && DigestSizeFor(authHash) != 0))
  }

  function Captured(l: Layer, cmd: bytes): Layer {
    match OfferIn(cmd)
    case None => l.(pending := true, compatible := false)
    case Some(o) => l.(pending := true, compatible := o.compatible, authHash := o.authHash)
  }

  /** The layer's state once a command has been patched or passed through. */
  function AfterCommand(l: Layer, cmd: bytes, capacity: nat): Layer {
    if !Framed(cmd, capacity) then l
    else
      var noted := l.(lastCommandCode := Read32(cmd, 6));
      if Read32(cmd, 6) == CC_START_AUTH_SESSION then Captured(noted, cmd) else noted
  }

  // ---------------------------------------------------------------------------
  // Processing a response
  // ---------------------------------------------------------------------------

  /** The Name in CreatePrimary response parameters, if they have the documented layout. */
  function CreatePrimaryName(params: bytes): Option<bytes> {
    var outPublic :- TakeTpm2b(params);
    var creationData :- TakeTpm2b(outPublic.rest);
    var creationHash :- TakeTpm2b(creationData.rest);
    if |creationHash.rest| < 6 then None
    else
      var ticketDigest :- TakeTpm2b(creationHash.rest[6..]);
      var name :- TakeTpm2b(ticketDigest.rest);
      Some(name.payload)
  }

  /** The Name in Load response parameters. */
  function LoadName(params: bytes): Option<bytes> {
    var name :- TakeTpm2b(params);
    Some(name.payload)
  }

  /** Commands that return a new object's handle and Name. */
  predicate MakesObject(code: u32) {
    code == CC_CREATE_PRIMARY || code == CC_LOAD
  }

  function ResponseName(code: u32, params: bytes): Option<bytes> {
    if code == CC_CREATE_PRIMARY then CreatePrimaryName(params)
    else if code == CC_LOAD then LoadName(params)
    else None
  }

  /** A pending StartAuthSession consumes the next response, whatever it says. */
  function Consumed(l: Layer, resp: bytes): Layer
    requires 10 <= |resp|
  {
    var idle := l.(pending := false, compatible := false);
    if Read16(resp, 0) != ST_NO_SESSIONS || Read32(resp, 6) != RC_SUCCESS then idle
    else if !l.compatible || |resp| < 16 then idle
    else
      match TakeTpm2b(resp[14..])
      case None => idle
      case Some(nonce) => Armed(Read32(resp, 10), nonce.payload, [], l.authHash)
  }

  /** nonceTPM follows the first authorization of a response, unless it is empty or too long. */
  function Rolled(l: Layer, nonce: bytes): Layer {
    if 0 < |nonce| <= MAX_DIGEST then l.(nonceTpm := nonce) else l
  }

  function AfterResponse(l: Layer, resp: bytes): Layer {
    if |resp| < 10 || Read32(resp, 2) != |resp| then l
    else if l.pending then Consumed(l, resp)
    else if !l.initialized || Read16(resp, 0) != ST_SESSIONS || Read32(resp, 6) != RC_SUCCESS then l
    else if !Known(l.lastCommandCode) then l
    else
      match ParseResponse(resp, OutHandleCount(l.lastCommandCode))
      case None => l
      case Some(r) =>
        var rolled := Rolled(l, r.nonce);
        if |r.handles| == 0 then rolled
        else
          match ResponseName(l.lastCommandCode, r.params)
          case None => rolled
          case Some(name) => rolled.(names := Added(l.names, r.handles[0], name))
  }
}
