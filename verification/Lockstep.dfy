/**
  The session layer against an abstract TPM. As long as the two are in step, both
  sides hold the same nonceTPM and the same Names over whole runs; and being in
  step cannot be weakened.
 */
module Lockstep {
  import opened Bytes
  import opened CommandAttributes
  import opened CommandLayout
  import opened LayerRuns
  import opened Names
  import opened PatchTheory
  import opened Peers
  import opened SessionLayer
  import opened StartAuthSession
  import opened Tpm2

  /** The peer still holds the very session the layer was armed with. */
  ghost predicate Held(l: Layer, tracked: nat, p: Peer) {
    l.initialized && l.handle in p.sessions && p.sessions[l.handle].serial == tracked
  }

  ghost predicate SameNonce(l: Layer, tracked: nat, p: Peer) {
    Held(l, tracked, p) ==>
      p.sessions[l.handle].nonce == l.nonceTpm && p.sessions[l.handle].key == l.sessionKey
  }

  ghost predicate SameNames(l: Layer, p: Peer) {
    forall h | h in p.objects && Has(l.names, h) :: NameIn(l.names, h) == p.objects[h]
  }

  /** Between exchanges: nothing pending, only sessions seen so far are tracked, and only transient objects named. */
  ghost predicate AtRest(l: Layer, tracked: nat, p: Peer) {
    && Inv(l) && !l.pending && SerialsBelow(p) && (l.initialized ==> tracked < p.nextSerial)
    && TransientNames(l)
  }

  ghost predicate TransientNames(l: Layer) {
    forall h | Has(l.names, h) :: Transient(h)
  }

  ghost predicate InLockstep(l: Layer, tracked: nat, p: Peer) {
    AtRest(l, tracked, p) && SameNonce(l, tracked, p) && SameNames(l, p)
  }

  /** A command to be sent, the number of its handles, its buffer's size, and the answer. */
  datatype Exchange = Exchange(cmd: bytes, handleCount: nat, capacity: nat, resp: bytes, move: Move)

  function SentIn(crypto: Crypto, l: Layer, x: Exchange): bytes {
    Patched(crypto, l, x.cmd, x.capacity)
  }

  /** The layer after an exchange. */
  function Exchanged(l: Layer, x: Exchange): Layer {
    AfterResponse(AfterCommand(l, x.cmd, x.capacity), x.resp)
  }

  /** The serial of the session the layer is armed with after an exchange. */
  function Tracked(l: Layer, tracked: nat, p: Peer, x: Exchange): nat {
    if AfterCommand(l, x.cmd, x.capacity).compatible && StartsSession(x.resp) then p.nextSerial else tracked
  }

  /** An exchange that the peer may take part in. */
  ghost predicate Possible(crypto: Crypto, l: Layer, p: Peer, x: Exchange) {
    && Framed(x.cmd, x.capacity) && x.capacity < 0x1_0000_0000
    && (Known(Read32(x.cmd, 6)) ==> x.handleCount == CommandHandles(Read32(x.cmd, 6)))
    && 10 <= |SentIn(crypto, l, x)| && Answers(p, SentIn(crypto, l, x), x.handleCount, x.resp, x.move)
  }

  // ---------------------------------------------------------------------------
  // Being in step
  // ---------------------------------------------------------------------------

  /** Commands whose responses the layer takes a nonce from. */
  predicate Follows(code: u32) {
    Known(code) && code != CC_START_AUTH_SESSION
  }

  /**
    In step on nonces: if the layer's session gets a new nonce, or the layer follows
    the response and the first session gets one, then the layer follows the response
    and the first session is its own.
   */
  ghost predicate InStep(l: Layer, tracked: nat, p: Peer, x: Exchange)
    requires 10 <= |x.cmd|
  {
    Held(l, tracked, p) && x.move.Executed? ==>
      var first, follows := FirstSession(x.cmd, x.handleCount), Follows(Read32(x.cmd, 6));
      l.handle in x.move.rolled || (follows && first.Some? && first.value in x.move.rolled) ==>
        follows && first == Some(l.handle)
  }

  /**
    In step on Names: under a handle that the layer has a Name for, any object is the
    one that was there, or has that same Name, or is the one that this response
    reports. Starting a plain session forgets all Names, and then anything goes.
   */
  ghost predicate NamesInStep(l: Layer, p: Peer, x: Exchange) {
    var m := x.move;
    (m.Started? && ParseStartAuth(x.cmd).Some? && ParseStartAuth(x.cmd).value.Plain())
    || forall h | h in m.after.objects && Has(l.names, h) ::
         || (h in p.objects && p.objects[h] == m.after.objects[h])
         || NameIn(l.names, h) == m.after.objects[h]
         || (m.Executed? && m.created == Some(Object(h, m.after.objects[h])))
  }

  /** New nonces are unlike the one the layer's session has or gets. */
  ghost predicate Fresh(l: Layer, p: Peer, m: Move) {
    m.Executed? && l.handle in p.sessions ==>
      forall h | h in m.rolled ::
        && m.rolled[h] != p.sessions[l.handle].nonce
        && (h != l.handle && l.handle in m.rolled ==> m.rolled[h] != m.rolled[l.handle])
  }

  // The same, told from the command alone, before it is sent.

  /**
    On nonces: if the layer's session is in the area, or the layer follows the
    command and a live session comes first, then the layer follows the command and
    its own session comes first.
   */
  predicate CommandInStep(l: Layer, p: Peer, cmd: bytes, handleCount: nat)
    requires 10 <= |cmd|
  {
    var first, follows := FirstSession(cmd, handleCount), Follows(Read32(cmd, 6));
    l.handle in AreaSessions(cmd, handleCount) || (follows && first.Some? && first.value in p.sessions) ==>
      follows && first == Some(l.handle)
  }

  /**
    On Names: the command reports the object it brings in, or brings none in, or
    cannot succeed, or every handle that the layer has a Name for is taken.
   */
  ghost predicate CommandKeepsNames(l: Layer, p: Peer, cmd: bytes, handleCount: nat)
    requires 10 <= |cmd|
  {
    var code := Read32(cmd, 6);
    MakesObject(code) || !Loads(code) || !CanSucceed(cmd, handleCount)
    || forall h | Has(l.names, h) :: h in p.objects
  }

  // ---------------------------------------------------------------------------
  // One exchange
  // ---------------------------------------------------------------------------

  /** What is sent has the code and the sessions of the command that was to be sent. */
  lemma SentKeeps(crypto: Crypto, l: Layer, x: Exchange, handleCount: nat)
    requires Framed(x.cmd, x.capacity) && x.capacity < 0x1_0000_0000
    requires Known(Read32(x.cmd, 6)) ==> handleCount == CommandHandles(Read32(x.cmd, 6))
    ensures var sent := SentIn(crypto, l, x);
            && 10 <= |sent| && Read32(sent, 6) == Read32(x.cmd, 6)
            && (Read32(x.cmd, 6) == CC_START_AUTH_SESSION ==> sent == x.cmd)
            && AreaSessions(sent, handleCount) == AreaSessions(x.cmd, handleCount)
  {
    hide Read16, Read32, Known, HandleCount, ParseCommand, EncodeCommand, NamesOf;
    LayerKnowsRules(Read32(x.cmd, 6), 0);
    if Patches(crypto, l, x.cmd, x.capacity) {
      PatchedParses(crypto, l, x.cmd, x.capacity);
      var c := Target(l, x.cmd).value;
      TargetHasSessions(l, x.cmd);
      TargetHasSessions(l, SentIn(crypto, l, x));
      assert HandlesIn(c.auth) == HandlesIn(Authorized(crypto, l, c).auth);
    }
  }

  /** The only session of a command that the layer patches is its own. */
  lemma TargetHasSessions(l: Layer, cmd: bytes)
    requires 10 <= |cmd| && Target(l, cmd).Some?
    ensures Read16(cmd, 0) == ST_SESSIONS && AreaSessions(cmd, HandleCount(Read32(cmd, 6))) == [l.handle]
  {
    hide Read16, Read32, Known, HandleCount, ParseCommand, NamesOf;
  }

  /** The same, for an exchange that takes place. */
  lemma SentInPossible(crypto: Crypto, l: Layer, p: Peer, x: Exchange)
    requires Possible(crypto, l, p, x)
    ensures var sent := SentIn(crypto, l, x);
            && Read32(sent, 6) == Read32(x.cmd, 6)
            && (Read32(x.cmd, 6) == CC_START_AUTH_SESSION ==> sent == x.cmd)
            && AreaSessions(sent, x.handleCount) == AreaSessions(x.cmd, x.handleCount)
  {
    hide Read16, Read32, Known, AreaSessions, Patched;
    SentKeeps(crypto, l, x, x.handleCount);
  }

  /** The layer after a successful authorized command, in terms of the response's parts. */
  lemma AfterExecuted(l: Layer, r: Response)
    requires r.WellFormed() && !l.pending
    requires (Known(l.lastCommandCode) ==> |r.handles| == OutHandleCount(l.lastCommandCode))
    ensures var l' := AfterResponse(l, EncodeResponse(r));
            if !l.initialized || !Known(l.lastCommandCode) then l' == l
            else
              && l' == Rolled(l, r.nonce).(names := l'.names)
              && (if |r.handles| != 0 && ResponseName(l.lastCommandCode, r.params).Some?
                  then l'.names == Added(l.names, r.handles[0], ResponseName(l.lastCommandCode, r.params).value)
                  else l'.names == l.names)
  {
    hide Be16, Be32, Read16, Read32, TakeTpm2b, ParseResponse, EncodeResponse, ResponseName, Added;
    ParseResponseOfEncode(r);
  }

  /** What a successful authorized command does to the layer. */
  lemma ExecutedLayer(crypto: Crypto, l: Layer, p: Peer, x: Exchange)
    requires Inv(l) && !l.pending && Possible(crypto, l, p, x) && x.move.Executed?
    ensures var l', m, code := Exchanged(l, x), x.move, Read32(x.cmd, 6);
            && !l'.pending && SameSession(l, l') && !StartsSession(x.resp)
            && l'.nonceTpm == (if l.initialized && Follows(code) && m.response.nonce != []
                               then m.response.nonce else l.nonceTpm)
            && l'.names == (if l.initialized && m.created.Some?
                            then Added(l.names, m.created.value.handle, m.created.value.name) else l.names)
  {
    hide Be16, Be32, Read16, Read32, TakeTpm2b, ParseResponse, EncodeResponse, OfferIn, CreatePrimaryName,
         LoadName, Added, Patched, AreaSessions;
    SentInPossible(crypto, l, p, x);
    var q, m, code := AfterCommand(l, x.cmd, x.capacity), x.move, Read32(x.cmd, 6);
    ParseResponseOfEncode(m.response);
    if code != CC_START_AUTH_SESSION {
      AfterExecuted(q, m.response);
    }
  }

  /** A refusal, or a success without an authorization area, does nothing to the layer's session. */
  lemma PassedLayer(crypto: Crypto, l: Layer, p: Peer, x: Exchange)
    requires Inv(l) && !l.pending && Possible(crypto, l, p, x) && (x.move.Refused? || x.move.Unauthorized?)
    ensures var l' := Exchanged(l, x);
            && !l'.pending && SameSession(l, l') && l'.nonceTpm == l.nonceTpm && l'.names == l.names
    ensures !(AfterCommand(l, x.cmd, x.capacity).compatible && StartsSession(x.resp))
  {
    hide Be16, Be32, Read16, Read32, TakeTpm2b, ParseResponse, OfferIn, ResponseName, Patched;
    SentInPossible(crypto, l, p, x);
  }

  /** Starting a session arms the layer with it if it is plain, and else does nothing. */
  lemma StartedLayer(crypto: Crypto, l: Layer, p: Peer, x: Exchange)
    requires Inv(l) && !l.pending && Possible(crypto, l, p, x) && x.move.Started?
    ensures SentIn(crypto, l, x) == x.cmd && ParseStartAuth(x.cmd).Some? && StartsSession(x.resp)
    ensures AfterCommand(l, x.cmd, x.capacity).compatible <==> ParseStartAuth(x.cmd).value.Plain()
    ensures var l', m := Exchanged(l, x), x.move;
            if ParseStartAuth(x.cmd).value.Plain() then l' == Armed(m.handle, m.session.nonce, [], ALG_SHA256)
            else !l'.pending && SameSession(l, l') && l'.nonceTpm == l.nonceTpm && l'.names == l.names
  {
    hide Be16, Be32, Read16, Read32, TakeTpm2b, ParseStartAuth, OfferIn, EncodeStartAuthResponse, Patched;
    SentInPossible(crypto, l, p, x);
    assert Read32(SentIn(crypto, l, x), 6) == CC_START_AUTH_SESSION by { StartAuthHasCode(SentIn(crypto, l, x)); }
    var q, m := AfterCommand(l, x.cmd, x.capacity), x.move;
    CaptureAgreesWithParse(x.cmd);
    StartAuthResponseFields(m.handle, m.session.nonce);
    NonceAt(x.resp);
    assert Inv(q) by { InvStep(l, Sent(x.cmd, x.capacity)); }
  }

  lemma StartAuthHasCode(cmd: bytes)
    requires ParseStartAuth(cmd).Some?
    ensures 10 <= |cmd| && Read32(cmd, 6) == CC_START_AUTH_SESSION
  {
  }

  /** After any exchange the layer is at rest again. */
  lemma ExchangeRests(crypto: Crypto, l: Layer, tracked: nat, p: Peer, x: Exchange)
    requires AtRest(l, tracked, p) && Possible(crypto, l, p, x)
    ensures AtRest(Exchanged(l, x), Tracked(l, tracked, p, x), x.move.after)
  {
    hide Inv, AfterCommand, AfterResponse, Patched, StartsSession, SentIn, ParseStartAuth, AreaSessions, Armed,
         EncodeResponse, EncodeStartAuthResponse, Read32, Read16, ResponseName;
    assert Inv(Exchanged(l, x)) by {
      InvStep(l, Sent(x.cmd, x.capacity));
      InvStep(AfterCommand(l, x.cmd, x.capacity), Received(x.resp));
    }
    match x.move
    case Started(_, _, _) =>
      StartedLayer(crypto, l, p, x);
      ArmedIsIdle(x.move.handle, x.move.session.nonce);
    case Executed(_, _, _, _) => ExecutedLayer(crypto, l, p, x);
    case _ => PassedLayer(crypto, l, p, x);
  }

  lemma ArmedIsIdle(handle: u32, nonce: bytes)
    ensures var l := Armed(handle, nonce, [], ALG_SHA256);
            l.initialized && l.handle == handle && !l.pending && l.names == [] && l.sessionKey == []
    ensures |nonce| <= MAX_DIGEST ==> Armed(handle, nonce, [], ALG_SHA256).nonceTpm == nonce
  {
  }

  /** A session start keeps the nonces in agreement, whatever kind of session it is. */
  lemma StartedStep(crypto: Crypto, l: Layer, tracked: nat, p: Peer, x: Exchange)
    requires AtRest(l, tracked, p) && SameNonce(l, tracked, p) && Possible(crypto, l, p, x) && x.move.Started?
    ensures SameNonce(Exchanged(l, x), Tracked(l, tracked, p, x), x.move.after)
  {
    hide Inv, AfterCommand, AfterResponse, Patched, StartsSession, ParseStartAuth, Armed,
         EncodeStartAuthResponse, Read32;
    StartedLayer(crypto, l, p, x);
    ArmedIsIdle(x.move.handle, x.move.session.nonce);
  }

  /**
    After a successful authorized command the two sides hold the same nonce if
    they are in step. If they are not, and new nonces are fresh, they do not: the
    condition cannot be weakened.
   */
  lemma ExecutedNonce(crypto: Crypto, l: Layer, tracked: nat, p: Peer, x: Exchange)
    requires AtRest(l, tracked, p) && SameNonce(l, tracked, p) && Possible(crypto, l, p, x) && x.move.Executed?
    ensures Tracked(l, tracked, p, x) == tracked
    ensures InStep(l, tracked, p, x) ==> SameNonce(Exchanged(l, x), tracked, x.move.after)
    ensures Held(Exchanged(l, x), tracked, x.move.after) && Fresh(l, p, x.move) ==>
              (SameNonce(Exchanged(l, x), tracked, x.move.after) <==> InStep(l, tracked, p, x))
  {
    hide Inv, AfterCommand, AfterResponse, Patched, StartsSession, EncodeResponse, Read32, Read16,
         AreaSessions, ResponseName, Known, MakesObject;
    assert Inv(l);
    SentInPossible(crypto, l, p, x);
    ExecutedLayer(crypto, l, p, x);
    var l', m := Exchanged(l, x), x.move;
    if Held(l', tracked, m.after) {
      assert m.after.sessions[l.handle] == RolledSessions(p, m.rolled)[l.handle];
      assert Held(l, tracked, p);
    }
  }

  /** After any exchange the recorded Names are the peer's if and only if the two are in step on Names. */
  lemma NamesStayExactly(crypto: Crypto, l: Layer, tracked: nat, p: Peer, x: Exchange)
    requires AtRest(l, tracked, p) && SameNames(l, p) && Possible(crypto, l, p, x)
    ensures SameNames(Exchanged(l, x), x.move.after) <==> NamesInStep(l, p, x)
  {
    hide AfterCommand, AfterResponse, Patched, StartsSession, SentIn, ParseStartAuth, AreaSessions, Armed,
         EncodeResponse, EncodeStartAuthResponse, Read32, Read16, ResponseName, Added, Has, NameIn;
    match x.move
    case Started(_, _, _) =>
      StartedLayer(crypto, l, p, x);
      ArmedIsIdle(x.move.handle, x.move.session.nonce);
      NoneRecorded();
    case Executed(_, _, _, _) =>
      ExecutedLayer(crypto, l, p, x);
      NoneRecorded();
      if x.move.created.Some? {
        AddedEffect(l.names, x.move.created.value.handle, x.move.created.value.name);
      }
    case _ => PassedLayer(crypto, l, p, x);
  }

  lemma NoneRecorded()
    ensures forall h :: !Has([], h)
  {
  }

  /** Every exchange in step, on nonces and on Names, keeps the layer and the peer in lockstep. */
  lemma ExchangeKeepsLockstep(crypto: Crypto, l: Layer, tracked: nat, p: Peer, x: Exchange)
    requires InLockstep(l, tracked, p) && Possible(crypto, l, p, x)
    requires InStep(l, tracked, p, x) && NamesInStep(l, p, x)
    ensures InLockstep(Exchanged(l, x), Tracked(l, tracked, p, x), x.move.after)
  {
    ExchangeNonce(crypto, l, tracked, p, x);
    ExchangeRests(crypto, l, tracked, p, x);
    NamesStayExactly(crypto, l, tracked, p, x);
  }

  /** Nonces after any exchange. */
  lemma ExchangeNonce(crypto: Crypto, l: Layer, tracked: nat, p: Peer, x: Exchange)
    requires AtRest(l, tracked, p) && SameNonce(l, tracked, p) && Possible(crypto, l, p, x)
    ensures var l', t' := Exchanged(l, x), Tracked(l, tracked, p, x);
            && (InStep(l, tracked, p, x) ==> SameNonce(l', t', x.move.after))
            && (Held(l', t', x.move.after) && Fresh(l, p, x.move) ==>
                  (SameNonce(l', t', x.move.after) <==> InStep(l, tracked, p, x)))
  {
    hide Inv, AfterCommand, AfterResponse, Patched, StartsSession, SentIn, ParseStartAuth, AreaSessions, Armed,
         EncodeResponse, EncodeStartAuthResponse, Read32, Read16, ResponseName, Fresh;
    match x.move
    case Started(_, _, _) => StartedStep(crypto, l, tracked, p, x);
    case Executed(_, _, _, _) => ExecutedNonce(crypto, l, tracked, p, x);
    case _ => PassedLayer(crypto, l, p, x);
  }

  // ---------------------------------------------------------------------------
  // When the two sides are in step
  // ---------------------------------------------------------------------------

  /** A peer that rolls nonces only on commands the layer has authorized is always in step. */
  lemma RollingOnlyPatchedIsInStep(crypto: Crypto, l: Layer, tracked: nat, p: Peer, x: Exchange)
    requires Possible(crypto, l, p, x)
    requires x.move.Executed? && x.move.rolled != map[] ==> Patches(crypto, l, x.cmd, x.capacity)
    ensures InStep(l, tracked, p, x)
  {
    hide Read16, Read32, Known, HandleCount, ParseCommand, EncodeCommand, NamesOf, ResponseName;
    if x.move.Executed? && x.move.rolled != map[] {
      SentInPossible(crypto, l, p, x);
      PatchedParses(crypto, l, x.cmd, x.capacity);
      LayerKnowsRules(Read32(x.cmd, 6), 0);
      TargetHasSessions(l, x.cmd);
    }
  }

  /** With a TPM that rolls every session in the area, being in step can be told from the command alone. */
  lemma InStepByCommand(crypto: Crypto, l: Layer, tracked: nat, p: Peer, x: Exchange)
    requires Possible(crypto, l, p, x) && RollsAll(p, x.cmd, x.handleCount, x.move)
    ensures Held(l, tracked, p) && CommandInStep(l, p, x.cmd, x.handleCount) ==> InStep(l, tracked, p, x)
    ensures Held(l, tracked, p) && x.move.Executed? ==>
              (InStep(l, tracked, p, x) <==> CommandInStep(l, p, x.cmd, x.handleCount))
  {
    hide Read16, Read32, Known, AreaSessions, ResponseName;
    var area := AreaSessions(x.cmd, x.handleCount);
    assert |area| != 0 ==> area[0] in area;
  }

  /** With an orderly TPM, a command that keeps Names is in step on Names whatever the answer. */
  lemma NamesInStepByCommand(l: Layer, tracked: nat, p: Peer, x: Exchange)
    requires AtRest(l, tracked, p) && 10 <= |x.cmd| && OrderlyObjects(p, Read32(x.cmd, 6), x.move)
    requires OrderlySuccess(x.cmd, x.handleCount, x.move) && CommandKeepsNames(l, p, x.cmd, x.handleCount)
    ensures NamesInStep(l, p, x)
  {
    hide Inv, Has, NameIn, AreaSessions, Read16, Read32;
  }

  // ---------------------------------------------------------------------------
  // Whole runs
  // ---------------------------------------------------------------------------

  function LayerAfter(xs: seq<Exchange>): Layer {
    if |xs| == 0 then RESET else Exchanged(LayerAfter(xs[..|xs| - 1]), xs[|xs| - 1])
  }

  function PeerAfter(start: Peer, xs: seq<Exchange>): Peer {
    if |xs| == 0 then start else xs[|xs| - 1].move.after
  }

  function TrackedAfter(start: Peer, xs: seq<Exchange>): nat {
    if |xs| == 0 then 0
    else
      var past := xs[..|xs| - 1];
      Tracked(LayerAfter(past), TrackedAfter(start, past), PeerAfter(start, past), xs[|xs| - 1])
  }

  /** Every exchange is possible for an orderly peer, and in step on nonces. */
  ghost predicate GoodRun(crypto: Crypto, start: Peer, xs: seq<Exchange>) {
    |xs| == 0
    || (var past, x := xs[..|xs| - 1], xs[|xs| - 1];
        var l, p := LayerAfter(past), PeerAfter(start, past);
        && GoodRun(crypto, start, past)
        && Possible(crypto, l, p, x) && InStep(l, TrackedAfter(start, past), p, x)
        && OrderlySuccess(x.cmd, x.handleCount, x.move) && OrderlyObjects(p, Read32(x.cmd, 6), x.move))
  }

  /** Every command keeps Names. */
  ghost predicate KeepsNames(start: Peer, xs: seq<Exchange>) {
    |xs| == 0
    || (var past, x := xs[..|xs| - 1], xs[|xs| - 1];
        && KeepsNames(start, past)
        && 10 <= |x.cmd| && CommandKeepsNames(LayerAfter(past), PeerAfter(start, past), x.cmd, x.handleCount))
  }

  /** From a reset on, the layer and any orderly peer stay in lockstep over any such run. */
  lemma {:induction false} RunKeepsLockstep(crypto: Crypto, start: Peer, xs: seq<Exchange>)
    requires SerialsBelow(start) && GoodRun(crypto, start, xs) && KeepsNames(start, xs)
    ensures InLockstep(LayerAfter(xs), TrackedAfter(start, xs), PeerAfter(start, xs))
  {
    hide Possible, InStep, OrderlySuccess, OrderlyObjects, CommandKeepsNames, Exchanged, Tracked, NamesInStep;
    if |xs| != 0 {
      var past, x := xs[..|xs| - 1], xs[|xs| - 1];
      RunKeepsLockstep(crypto, start, past);
      NamesInStepByCommand(LayerAfter(past), TrackedAfter(start, past), PeerAfter(start, past), x);
      ExchangeKeepsLockstep(crypto, LayerAfter(past), TrackedAfter(start, past), PeerAfter(start, past), x);
    }
  }
}
