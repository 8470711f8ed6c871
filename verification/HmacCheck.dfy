/**
  Whether the HMAC of what the layer patches verifies: the TPM recomputes it from
  the bytes it received. Whether it then accepts the command is for the TPM to say:
  it may ask for more sessions, or refuse the parameters.
 */
module HmacCheck {
  import opened Bytes
  import opened CommandAttributes
  import opened CommandLayout
  import opened LayerRuns
  import opened Lockstep
  import opened Names
  import opened PatchTheory
  import opened Peers
  import opened SessionLayer
  import opened StartAuthSession
  import opened Tpm2

  /** The Names of handles by the peer's own books. */
  function PeerNames(p: Peer, handles: seq<u32>): Option<bytes> {
    if |handles| == 0 then Some([])
    else
      var others :- PeerNames(p, handles[1..]);
      if IsObject(handles[0]) && handles[0] in p.objects then Some(p.objects[handles[0]] + others)
      else if NamesItself(handles[0]) then Some(Be32(handles[0]) + others)
      else None
  }

  /** The authorization value of the entity that the first session authorizes, if it authorizes one. */
  function AuthValue(p: Peer, c: Command): bytes
    requires Known(c.code)
  {
    if AuthorizesHandle(c.code) && |c.handles| != 0 && c.handles[0] in p.authValues
    then p.authValues[c.handles[0]] else []
  }

  /**
    The HMAC the peer computes over a command it has received, if it knows session
    and handles: section 19.6.5 of Part 1 of the TPM 2.0 Library specification. The
    caller's nonce is the newer one and the peer's own the older.
   */
  function PeerHmac(crypto: Crypto, p: Peer, c: Command): Option<Digest>
    requires Known(c.code)
  {
    if |c.auth| == 0 || c.auth[0].handle !in p.sessions then None
    else
      var names :- PeerNames(p, c.handles);
      var session := p.sessions[c.auth[0].handle];
      var pHash := crypto.sha256(Be32(c.code) + names + c.params);
      var message := pHash + c.auth[0].nonce + session.nonce + [c.auth[0].attributes];
      Some(crypto.hmac(session.key + AuthValue(p, c), message))
  }

  /** The bytes received parse, and carry the HMAC that the peer recomputes from them. */
  predicate HmacVerifies(crypto: Crypto, p: Peer, sent: bytes) {
    10 <= |sent| && Known(Read32(sent, 6))
    && var parsed := ParseCommand(sent, CommandHandles(Read32(sent, 6)));
    parsed.Some? && |parsed.value.auth| != 0
    && PeerHmac(crypto, p, parsed.value) == Some(parsed.value.auth[0].hmac)
  }

  /** Layer and peer agree on everything that goes into the authorization of a command. */
  ghost predicate Agree(l: Layer, p: Peer, c: Command)
    requires Known(c.code)
  {
    && l.handle in p.sessions && p.sessions[l.handle].nonce == l.nonceTpm
    && p.sessions[l.handle].key + AuthValue(p, c) == l.sessionKey
    && PeerNames(p, c.handles).Some? && PeerNames(p, c.handles) == NamesOf(l.names, c.handles)
  }

  /** If the two agree, the HMAC of a patched command verifies. */
  lemma AgreedVerifies(crypto: Crypto, l: Layer, p: Peer, cmd: bytes, capacity: nat)
    requires Patches(crypto, l, cmd, capacity) && capacity < 0x1_0000_0000 && Agree(l, p, Target(l, cmd).value)
    ensures HmacVerifies(crypto, p, Patched(crypto, l, cmd, capacity))
  {
    hide ParseCommand, Be32, Read16, Read32, HandleCount, Known, NamesOf, PeerNames, AuthValue;
    PatchedParses(crypto, l, cmd, capacity);
    LayerKnowsRules(Read32(cmd, 6), 0);
    AuthValueIsByHandles(p, Target(l, cmd).value, Authorized(crypto, l, Target(l, cmd).value));
  }

  lemma AuthValueIsByHandles(p: Peer, c: Command, d: Command)
    requires c.code == d.code && c.handles == d.handles && Known(c.code)
    ensures AuthValue(p, c) == AuthValue(p, d)
  {
  }

  /** Hash functions that tell one message, one key and one HMAC message from all others. */
  function Teller(hashed: bytes, key: bytes, message: bytes): Crypto {
    Crypto(m => if m == hashed then Filled(32, 0) else Filled(32, 1),
           (k, m) => if k == key && m == message then Filled(32, 0) else Filled(32, 1))
  }

  /** The one that knows what the layer hashes for a command. */
  function TellerOf(l: Layer, c: Command): Crypto
    requires |c.auth| == 1 && NamesOf(l.names, c.handles).Some?
  {
    Teller(Be32(c.code) + NamesOf(l.names, c.handles).value + c.params, l.sessionKey,
           Filled(32, 0) + NONCE_CALLER + l.nonceTpm + [c.auth[0].attributes])
  }

  lemma MiddleDiffers(a: bytes, x: bytes, y: bytes, b: bytes)
    ensures a + x + b == a + y + b <==> x == y
  {
    if a + x + b == a + y + b {
      assert |x| == |y| && x == (a + x + b)[|a|..|a| + |x|] == (a + y + b)[|a|..|a| + |y|] == y;
    }
  }

  /** Both parts of an HMAC message can be told from it. */
  lemma MessageDiffers(c: Digest, d: Digest, n: bytes, x: bytes, y: bytes, a: bytes)
    ensures c + n + x + a == d + n + y + a <==> c == d && x == y
  {
    if c + n + x + a == d + n + y + a {
      assert c == (c + n + x + a)[..32] == (d + n + y + a)[..32] == d;
      MiddleDiffers(c + n, x, y, a);
    }
  }

  /** If the two do not agree, there are hash functions that show it. */
  lemma TellerDisagrees(l: Layer, p: Peer, cmd: bytes, capacity: nat)
    requires Framed(cmd, capacity) && Target(l, cmd).Some? && capacity < 0x1_0000_0000
    requires Patches(TellerOf(l, Target(l, cmd).value), l, cmd, capacity) && !Agree(l, p, Target(l, cmd).value)
    ensures !HmacVerifies(TellerOf(l, Target(l, cmd).value), p,
                         Patched(TellerOf(l, Target(l, cmd).value), l, cmd, capacity))
  {
    hide ParseCommand, Be32, Read16, Read32, HandleCount, Known, NamesOf, PeerNames, AuthValue, Filled;
    var c := Target(l, cmd).value;
    var crypto := TellerOf(l, c);
    PatchedParses(crypto, l, cmd, capacity);
    LayerKnowsRules(Read32(cmd, 6), 0);
    var d := Authorized(crypto, l, c);
    AuthValueIsByHandles(p, c, d);
    var zeros: Digest, ones: Digest := Filled(32, 0), Filled(32, 1);
    assert zeros[0] != ones[0];
    assert d.auth[0].hmac == zeros;
    if l.handle in p.sessions && PeerNames(p, c.handles).Some? {
      var names, session := PeerNames(p, c.handles).value, p.sessions[l.handle];
      MiddleDiffers(Be32(c.code), names, NamesOf(l.names, c.handles).value, c.params);
      var pHash := crypto.sha256(Be32(c.code) + names + c.params);
      MessageDiffers(pHash, zeros, NONCE_CALLER, session.nonce, l.nonceTpm, [c.auth[0].attributes]);
      assert PeerHmac(crypto, p, d) == Some(ones);
    }
  }

  /**
    The HMAC of a patched command verifies, whatever the hash functions, if and only
    if layer and peer agree: on the nonce, on the key with the authorization value, and on
    the Names of the handles.
   */
  lemma VerifiesExactly(l: Layer, p: Peer, cmd: bytes, capacity: nat)
    requires Framed(cmd, capacity) && |cmd| + 48 <= capacity < 0x1_0000_0000 && Target(l, cmd).Some?
    ensures (forall crypto :: HmacVerifies(crypto, p, Patched(crypto, l, cmd, capacity)))
            <==> Agree(l, p, Target(l, cmd).value)
  {
    hide HmacVerifies, Agree, Target, Patched, TellerOf, Known;
    if Agree(l, p, Target(l, cmd).value) {
      forall crypto ensures HmacVerifies(crypto, p, Patched(crypto, l, cmd, capacity)) {
        HeadroomSuffices(crypto, l, cmd, capacity);
        AgreedVerifies(crypto, l, p, cmd, capacity);
      }
    } else {
      HeadroomSuffices(TellerOf(l, Target(l, cmd).value), l, cmd, capacity);
      TellerDisagrees(l, p, cmd, capacity);
    }
  }

  // ---------------------------------------------------------------------------
  // In lockstep
  // ---------------------------------------------------------------------------

  lemma {:induction false} NamesAgree(l: Layer, p: Peer, handles: seq<u32>)
    requires SameNames(l, p) && NamesOf(l.names, handles).Some? && PeerNames(p, handles).Some?
    ensures NamesOf(l.names, handles) == PeerNames(p, handles)
  {
    if |handles| != 0 {
      NamesAgree(l, p, handles[1..]);
    }
  }

  /** In lockstep, a session held and handles known to the peer leave only the authorization value. */
  lemma LockstepAgrees(l: Layer, tracked: nat, p: Peer, c: Command)
    requires InLockstep(l, tracked, p) && Held(l, tracked, p) && Known(c.code)
    requires NamesOf(l.names, c.handles).Some? && PeerNames(p, c.handles).Some?
    ensures Agree(l, p, c) <==> AuthValue(p, c) == []
  {
    hide AuthValue, Known, NamesOf, PeerNames;
    NamesAgree(l, p, c.handles);
    assert p.sessions[l.handle].key == l.sessionKey == [] && [] + AuthValue(p, c) == AuthValue(p, c);
  }

  /** In lockstep, a patched command carries the HMAC the peer recomputes from the bytes it received. */
  lemma PatchedHmacIsExpected(crypto: Crypto, l: Layer, tracked: nat, p: Peer, cmd: bytes, capacity: nat)
    requires InLockstep(l, tracked, p) && Held(l, tracked, p)
    requires Patches(crypto, l, cmd, capacity) && capacity < 0x1_0000_0000
    requires PeerNames(p, Target(l, cmd).value.handles).Some? && AuthValue(p, Target(l, cmd).value) == []
    ensures HmacVerifies(crypto, p, Patched(crypto, l, cmd, capacity))
  {
    hide ParseCommand, Read16, Read32, InLockstep, Held, Agree, AuthValue, HmacVerifies, Patched;
    LockstepAgrees(l, tracked, p, Target(l, cmd).value);
    AgreedVerifies(crypto, l, p, cmd, capacity);
  }

  /**
    The layer's key leaves out the authorization value. So in lockstep the HMAC of a
    patched command verifies, whatever the hash functions, if and only if the command
    authorizes no handle or that handle's authorization value is empty.
   */
  lemma VerifiesExactlyWithoutAuthValue(l: Layer, tracked: nat, p: Peer, cmd: bytes, capacity: nat)
    requires InLockstep(l, tracked, p) && Held(l, tracked, p)
    requires Framed(cmd, capacity) && |cmd| + 48 <= capacity < 0x1_0000_0000 && Target(l, cmd).Some?
    requires PeerNames(p, Target(l, cmd).value.handles).Some?
    ensures var c := Target(l, cmd).value;
            (forall crypto :: HmacVerifies(crypto, p, Patched(crypto, l, cmd, capacity)))
            <==> !AuthorizesHandle(c.code) || |c.handles| == 0 || c.handles[0] !in p.authValues
                 || p.authValues[c.handles[0]] == []
  {
    hide ParseCommand, Read16, Read32, InLockstep, Held, Agree, HmacVerifies, Patched, Known, AuthHandleCount;
    LockstepAgrees(l, tracked, p, Target(l, cmd).value);
    VerifiesExactly(l, p, cmd, capacity);
  }

  /** After any run that keeps lockstep, the HMAC of whatever the layer patches next verifies. */
  lemma RunPatchesVerify(crypto: Crypto, start: Peer, xs: seq<Exchange>, cmd: bytes, capacity: nat)
    requires SerialsBelow(start) && GoodRun(crypto, start, xs) && KeepsNames(start, xs)
    requires Held(LayerAfter(xs), TrackedAfter(start, xs), PeerAfter(start, xs))
    requires Patches(crypto, LayerAfter(xs), cmd, capacity) && capacity < 0x1_0000_0000
    requires PeerNames(PeerAfter(start, xs), Target(LayerAfter(xs), cmd).value.handles).Some?
    requires AuthValue(PeerAfter(start, xs), Target(LayerAfter(xs), cmd).value) == []
    ensures HmacVerifies(crypto, PeerAfter(start, xs), Patched(crypto, LayerAfter(xs), cmd, capacity))
  {
    hide ParseCommand, Read16, Read32, AuthValue, HmacVerifies, Patched, GoodRun, KeepsNames, InLockstep,
         Known;
    RunKeepsLockstep(crypto, start, xs);
    PatchedHmacIsExpected(crypto, LayerAfter(xs), TrackedAfter(start, xs), PeerAfter(start, xs), cmd, capacity);
  }

  // ---------------------------------------------------------------------------
  // The layer does its work
  // ---------------------------------------------------------------------------

  /** The exchange in which a session is started for command s, under a given handle and nonce. */
  function Starting(p: Peer, s: StartAuth, handle: u32, nonce: bytes): Exchange {
    var session := PeerSession(p.nextSerial, nonce, []);
    Exchange(EncodeStartAuth(ST_NO_SESSIONS, s), 2, |EncodeStartAuth(ST_NO_SESSIONS, s)|,
             EncodeStartAuthResponse(handle, nonce),
             Started(handle, session, p.(sessions := p.sessions[handle := session], nextSerial := p.nextSerial + 1)))
  }

  /** Wherever a run has got to, starting any plain session is possible and arms the layer with it. */
  lemma PlainSessionIsHeld(crypto: Crypto, l: Layer, tracked: nat, p: Peer, s: StartAuth, handle: u32, nonce: bytes)
    requires InLockstep(l, tracked, p) && s.WellFormed() && s.Plain() && |s.symmetric| == SymmetricSize(s.symmetric)
    requires |EncodeStartAuth(ST_NO_SESSIONS, s)| < 0x1_0000_0000
    requires 1 <= |nonce| <= 64 && handle !in p.sessions
    ensures var x := Starting(p, s, handle, nonce);
            && Possible(crypto, l, p, x) && InStep(l, tracked, p, x) && NamesInStep(l, p, x)
            && OrderlySuccess(x.cmd, 2, x.move) && OrderlyObjects(p, Read32(x.cmd, 6), x.move)
            && CommandKeepsNames(l, p, x.cmd, 2)
            && Held(Exchanged(l, x), Tracked(l, tracked, p, x), x.move.after)
            && Exchanged(l, x) == Armed(handle, nonce, [], ALG_SHA256)
  {
    hide Be16, Be32, Read16, Read32, TakeTpm2b, ParseStartAuth, EncodeStartAuth, OfferIn,
         EncodeStartAuthResponse, Target, Known, HandleCount, AreaSessions, Inv;
    var x := Starting(p, s, handle, nonce);
    StartAuthFields(ST_NO_SESSIONS, s);
    ParseStartAuthOfEncode(ST_NO_SESSIONS, s);
    CaptureIsFullParse(ST_NO_SESSIONS, s);
    StartAuthResponseFields(handle, nonce);
    NonceAt(x.resp);
    StartAuthHasTwoHandles();
    SentKeeps(crypto, l, x, 2);
  }

  lemma StartAuthHasTwoHandles()
    ensures Known(CC_START_AUTH_SESSION) && CommandHandles(CC_START_AUTH_SESSION) == 2
  {
  }

  /** Both sides name handles that stand for themselves. */
  lemma {:induction false} ValuesAreNamed(l: Layer, p: Peer, handles: seq<u32>)
    requires forall h | h in handles :: NamesItself(h)
    ensures NamesOf(l.names, handles).Some? && PeerNames(p, handles).Some?
  {
    hide Be32, NameIn;
    if |handles| != 0 {
      ValuesAreNamed(l, p, handles[1..]);
      assert NamesItself(handles[0]);
      NameByRange(l.names, handles[0]);
      assert HandleName(l.names, handles[0]) == Be32(handles[0]) != [];
    }
  }

  /**
    Wherever a run has got to, start any plain session, and every command
    authorized by it alone, over permanent, PCR and session handles, is patched, and
    its HMAC verifies, whatever nonce and HMAC it came with.
   */
  lemma StartedSessionVerifies(crypto: Crypto, l: Layer, tracked: nat, p: Peer, s: StartAuth, handle: u32,
                                 nonce: bytes, c: Command, capacity: nat)
    requires InLockstep(l, tracked, p) && s.WellFormed() && s.Plain() && |s.symmetric| == SymmetricSize(s.symmetric)
    requires |EncodeStartAuth(ST_NO_SESSIONS, s)| < 0x1_0000_0000
    requires 1 <= |nonce| <= 64 && handle !in p.sessions
    requires c.WellFormed() && c.tag == ST_SESSIONS && Known(c.code) && c.code != CC_START_AUTH_SESSION
    requires |c.handles| == CommandHandles(c.code) && forall h | h in c.handles :: NamesItself(h)
    requires |c.auth| == 1 && c.auth[0].handle == handle && AuthValue(p, c) == []
    requires CommandSize(c) + 48 <= capacity < 0x1_0000_0000
    ensures var x := Starting(p, s, handle, nonce);
            && Patches(crypto, Exchanged(l, x), EncodeCommand(c), capacity)
            && HmacVerifies(crypto, x.move.after, Patched(crypto, Exchanged(l, x), EncodeCommand(c), capacity))
  {
    hide Possible, InStep, NamesInStep, Exchanged, HmacVerifies, ParseCommand, EncodeCommand, EncodeStartAuth,
         InLockstep, Patched, Tracked, Known, HandleCount, AuthHandleCount, Read16, Read32, NamesOf, PeerNames;
    var x := Starting(p, s, handle, nonce);
    PlainSessionIsHeld(crypto, l, tracked, p, s, handle, nonce);
    ExchangeKeepsLockstep(crypto, l, tracked, p, x);
    var l', cmd := Exchanged(l, x), EncodeCommand(c);
    LayerKnowsRules(c.code, 0);
    CommandFields(c);
    ParseCommandOfEncode(c);
    ValuesAreNamed(l', x.move.after, c.handles);
    HeadroomSuffices(crypto, l', cmd, capacity);
    PatchedHmacIsExpected(crypto, l', Tracked(l, tracked, p, x), x.move.after, cmd, capacity);
  }
}
