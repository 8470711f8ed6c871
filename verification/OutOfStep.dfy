/**
  Exchanges with an orderly TPM that leave the layer behind: a message of the loop
  that another session authorizes, and, for callers other than the loop, a command
  that puts an object where the layer knows another one.
 */
module OutOfStep {
  import opened Bytes
  import opened CommandAttributes
  import opened CommandLayout
  import opened FuzzLoop
  import opened HmacCheck
  import opened LayerRuns
  import opened Lockstep
  import opened Names
  import opened PatchTheory
  import opened Peers
  import opened SenderConditions
  import opened SessionLayer
  import opened Tpm2
  import Marshalling

  // ---------------------------------------------------------------------------
  // Another session's nonce
  // ---------------------------------------------------------------------------

  /** A message that the layer follows, authorized first by a live session that is not the layer's. */
  predicate Foreign(l: Layer, p: Peer, m: Marshalling.Message) {
    && Marshalling.CommandEncoding(m).Some? && !m.NotSet? && Normalized(m) && Follows(OwnCode(m))
    && SessionsOf(m) != [] && SessionsOf(m)[0] != l.handle && SessionsOf(m)[0] in p.sessions
  }

  /**
    From any state in lockstep, let the loop send such a message. It goes out
    unchanged, the TPM executes it, and the layer takes the other session's nonce
    for its own.
   */
  lemma ForeignMessageBreaksLockstep(crypto: Crypto, l: Layer, tracked: nat, p: Peer, m: Marshalling.Message)
    requires InLockstep(l, tracked, p) && Held(l, tracked, p) && Foreign(l, p, m)
    ensures Sendable(AsOutgoing(m))
    ensures var o := AsOutgoing(m);
            var x, other := Performed(l, p, o, NEW_OBJECT, map[]), SessionsOf(m)[0];
            var l', after := Exchanged(l, x), x.move.after;
            && OrderlyAnswer(crypto, l, p, o, x) && SentIn(crypto, l, x) == Marshalling.CommandEncoding(m).value
            && other in after.sessions && l'.nonceTpm == after.sessions[other].nonce
            && Held(l', tracked, after) && after.sessions[l.handle].nonce != l'.nonceTpm
  {
    hide Marshalling.CommandEncoding, Inv, Read16, Read32, EncodeResponse, ResponseName, Patched, Possible,
         Loads, MakesObject, Exchanged, OrderlyObjects, OrderlySuccess, TransientNames, RollsAll, Sendable,
         OwnCode, Normalized, AreaSessions, SessionsOf, Follows, NewResponse, Nonces, Tracked;
    var o := AsOutgoing(m);
    MessageOnWire(m);
    MessageKeepsNames(l, p, m);
    var x := Performed(l, p, o, NEW_OBJECT, map[]);
    assert SessionsOf(m)[0] in SessionsOf(m);
    PerformedBreaksNonce(crypto, l, tracked, p, o);
    AnswerIsPossible(crypto, l, p, o, x);
    NewResponseParts(l, p, o, NEW_OBJECT);
    ExecutedLayer(crypto, l, p, x);
    ForeignIsSent(crypto, l, p, m);
    NonceWhileHeld(l, tracked, p);
  }

  lemma ForeignIsSent(crypto: Crypto, l: Layer, p: Peer, m: Marshalling.Message)
    requires Foreign(l, p, m)
    ensures Patched(crypto, l, AsOutgoing(m).cmd, AsOutgoing(m).capacity) == Marshalling.CommandEncoding(m).value
  {
    hide Marshalling.CommandEncoding, Read16, Read32, ParseCommand, EncodeCommand, OwnCode, Normalized, Known,
         HandleCount, SessionsOf, NamesOf;
    var o := AsOutgoing(m);
    MessageOnWire(m);
    TableFitsMessages(m);
    if Patches(crypto, l, o.cmd, o.capacity) {
      TargetHasSessions(l, o.cmd);
      assert false;
    }
  }

  // ---------------------------------------------------------------------------
  // A Name that is no longer right
  // ---------------------------------------------------------------------------

  /** A ContextLoad that brings an object in under a handle. */
  function Reloading(p: Peer, context: bytes, handle: u32, name: bytes): Exchange {
    var size := 10 + |context|;
    Exchange(Header(ST_NO_SESSIONS, size, CC_CONTEXT_LOAD) + context, 0, size,
             Header(ST_NO_SESSIONS, 14, RC_SUCCESS) + Be32(handle),
             Unauthorized(p.(objects := p.objects[handle := name])))
  }

  lemma ReloadingIsPossible(crypto: Crypto, l: Layer, p: Peer, context: bytes, handle: u32, name: bytes)
    requires SerialsBelow(p) && 10 + |context| < 0x1_0000_0000 && handle !in p.objects
    ensures var x := Reloading(p, context, handle, name);
            && Possible(crypto, l, p, x)
            && OrderlySuccess(x.cmd, 0, x.move) && OrderlyObjects(p, Read32(x.cmd, 6), x.move)
  {
    hide Be16, Be32, Read16, Read32, Header;
    ContextLoadHasNoHandles();
    var x := Reloading(p, context, handle, name);
    HeaderFields(x.cmd, ST_NO_SESSIONS, |x.cmd|, CC_CONTEXT_LOAD);
    HeaderFields(x.resp, ST_NO_SESSIONS, 14, RC_SUCCESS);
  }

  lemma ContextLoadHasNoHandles()
    ensures Known(CC_CONTEXT_LOAD) && CommandHandles(CC_CONTEXT_LOAD) == 0
  {
  }

  /**
    From any state in lockstep, let a ContextLoad bring an object in under a free
    handle that the layer still has another Name for. The layer keeps that Name.
   */
  lemma StaleNameBreaksLockstep(crypto: Crypto, l: Layer, tracked: nat, p: Peer, context: bytes, handle: u32,
                                name: bytes)
    requires InLockstep(l, tracked, p) && 10 + |context| < 0x1_0000_0000
    requires handle !in p.objects && Has(l.names, handle) && name != NameIn(l.names, handle)
    ensures var x := Reloading(p, context, handle, name);
            && Possible(crypto, l, p, x) && InStep(l, tracked, p, x)
            && OrderlySuccess(x.cmd, 0, x.move) && OrderlyObjects(p, Read32(x.cmd, 6), x.move)
            && Exchanged(l, x).names == l.names && !SameNames(Exchanged(l, x), x.move.after)
  {
    hide Exchanged, Possible, Header, Be32, Inv, Has, NameIn;
    ReloadingIsPossible(crypto, l, p, context, handle, name);
    PassedLayer(crypto, l, p, Reloading(p, context, handle, name));
  }

  /** After that, a command over the handle is still patched, but for some hash functions its HMAC does not verify. */
  lemma StaleNameFails(crypto: Crypto, l: Layer, tracked: nat, p: Peer, context: bytes, name: bytes,
                       c: Command, capacity: nat)
    requires InLockstep(l, tracked, p) && l.initialized && 10 + |context| < 0x1_0000_0000
    requires c.WellFormed() && c.tag == ST_SESSIONS && Known(c.code) && c.code != CC_START_AUTH_SESSION
    requires |c.handles| == CommandHandles(c.code) == 1 && IsObject(c.handles[0])
    requires |c.auth| == 1 && c.auth[0].handle == l.handle && CommandSize(c) + 48 <= capacity < 0x1_0000_0000
    requires var h := c.handles[0];
             h !in p.objects && Has(l.names, h) && name != NameIn(l.names, h) && NameIn(l.names, h) != []
    ensures var x := Reloading(p, context, c.handles[0], name);
            && Possible(crypto, l, p, x) && InStep(l, tracked, p, x)
            && Target(Exchanged(l, x), EncodeCommand(c)) == Some(c)
            && exists hashes ::
                 !HmacVerifies(hashes, x.move.after, Patched(hashes, Exchanged(l, x), EncodeCommand(c), capacity))
  {
    hide Exchanged, Possible, Header, Be32, Has, NameIn, Reloading, ParseCommand, EncodeCommand, Known,
         HandleCount, AuthHandleCount, Read16, Read32, HmacVerifies, Patched, InStep, NamesInStep, SameNames;
    var h, x := c.handles[0], Reloading(p, context, c.handles[0], name);
    assert Inv(l);
    StaleNameBreaksLockstep(crypto, l, tracked, p, context, h, name);
    ReloadingKeeps(crypto, l, p, context, h, name);
    var l', after := Exchanged(l, x), x.move.after;
    LayerKnowsRules(c.code, h);
    CommandFields(c);
    ParseCommandOfEncode(c);
    OneName(l'.names, after, h);
    assert c.handles == [h];
    assert !Agree(l', after, c);
    VerifiesExactly(l', after, EncodeCommand(c), capacity);
  }

  lemma ReloadingKeeps(crypto: Crypto, l: Layer, p: Peer, context: bytes, handle: u32, name: bytes)
    requires Inv(l) && !l.pending && SerialsBelow(p) && 10 + |context| < 0x1_0000_0000 && handle !in p.objects
    ensures var x := Reloading(p, context, handle, name);
            && SameSession(l, Exchanged(l, x)) && Exchanged(l, x).names == l.names
            && x.move.after.objects == p.objects[handle := name]
  {
    hide Exchanged, Possible, Header, Be32, Inv;
    ReloadingIsPossible(crypto, l, p, context, handle, name);
    PassedLayer(crypto, l, p, Reloading(p, context, handle, name));
  }

  /** What both sides make of a single object handle. */
  lemma OneName(t: seq<NameEntry>, p: Peer, h: u32)
    requires IsObject(h) && NameIn(t, h) != [] && h in p.objects
    ensures NamesOf(t, [h]) == Some(NameIn(t, h)) && PeerNames(p, [h]) == Some(p.objects[h])
  {
    hide NameIn;
    assert [h][1..] == [] && NameIn(t, h) + [] == NameIn(t, h) && p.objects[h] + [] == p.objects[h];
    assert NamesOf(t, [h][1..]) == Some([]) && PeerNames(p, [h][1..]) == Some([]);
  }

  // ---------------------------------------------------------------------------
  // States in lockstep
  // ---------------------------------------------------------------------------

  const OURS: u32 := 0x200_0000
  const POLICY: u32 := 0x300_0000
  const LOCKOUT: u32 := 0x4000_000A
  const OBJECT: u32 := 0x8000_0000

  /** The layer armed with its session, and one Name. */
  function ArmedLayer(): Layer {
    Armed(OURS, Filled(16, 1), [], ALG_SHA256).(names := [NameEntry(OBJECT, Filled(34, 1))])
  }

  /** A TPM with that session and a policy session, no longer with the object, and with a lockout password. */
  function TwoSessions(): Peer {
    Peer(map[OURS := PeerSession(0, Filled(16, 1), []), POLICY := PeerSession(1, Filled(16, 2), [])], map[],
         map[LOCKOUT := [7]], 2)
  }

  /** A Clear that the policy session authorizes. */
  function ClearByPolicy(): Marshalling.Message {
    Marshalling.Clear(Marshalling.ProtoHeader(ST_SESSIONS, 0, CC_CLEAR), LOCKOUT,
                      [Marshalling.ProtoSession(POLICY, Filled(16, 4), 1, [])])
  }

  lemma ClearByPolicyIsForeign()
    ensures Foreign(ArmedLayer(), TwoSessions(), ClearByPolicy())
  {
    hide Be16, Be32, EncodeEntry, Filled;
    var m := ClearByPolicy();
    var fs := Marshalling.Body(m);
    assert fs == [fs[0]] + [fs[1]];
    Marshalling.FieldsEncodingOne(fs[0]);
    Marshalling.FieldsEncodingOne(fs[1]);
    Marshalling.FieldsEncodingAppend([fs[0]], [fs[1]]);
    EncodeOneEntry(Marshalling.SessionEntry(m.sessions[0]));
    assert Marshalling.SessionEntries(m.sessions) == [Marshalling.SessionEntry(m.sessions[0])];
  }

  /** The conditions of the lemmas above can be met, all at once. */
  lemma StateInLockstep()
    ensures InLockstep(ArmedLayer(), 0, TwoSessions()) && Held(ArmedLayer(), 0, TwoSessions())
    ensures POLICY in TwoSessions().sessions && POLICY != ArmedLayer().handle
    ensures OBJECT !in TwoSessions().objects && Has(ArmedLayer().names, OBJECT)
    ensures IsObject(OBJECT) && NameIn(ArmedLayer().names, OBJECT) == Filled(34, 1) != []
  {
    var t := ArmedLayer().names;
    assert t[0].handle == OBJECT && IndexOf(t, OBJECT) == 0;
  }

  /** A Clear authorized by the layer's session. */
  function ClearByUs(): Command {
    Command(ST_SESSIONS, CC_CLEAR, [LOCKOUT], [AuthEntry(OURS, NONCE_CALLER, 1, [])], [])
  }

  /**
    In that state, a Clear under the lockout password is patched and, for some hash
    functions, its HMAC does not verify.
   */
  lemma PasswordFails()
    ensures var l, p, cmd := ArmedLayer(), TwoSessions(), EncodeCommand(ClearByUs());
            && InLockstep(l, 0, p) && Held(l, 0, p) && Target(l, cmd) == Some(ClearByUs())
            && PeerNames(p, ClearByUs().handles).Some?
            && exists hashes :: !HmacVerifies(hashes, p, Patched(hashes, l, cmd, 200))
  {
    hide Be16, Be32, Read16, Read32, ParseCommand, EncodeCommand, HmacVerifies, Patched, Filled, InLockstep,
         Held;
    var l, p, c := ArmedLayer(), TwoSessions(), ClearByUs();
    StateInLockstep();
    EncodeOneEntry(c.auth[0]);
    CommandFields(c);
    ParseCommandOfEncode(c);
    ValuesAreNamed(l, p, c.handles);
    VerifiesExactlyWithoutAuthValue(l, 0, p, EncodeCommand(c), 200);
  }
}
