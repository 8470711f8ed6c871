/**
  Which commands are safe to send: the exact conditions, on the command and the
  present state alone, for every answer of an orderly TPM to keep lockstep.
 */
module SenderConditions {
  import opened Bytes
  import opened CommandAttributes
  import opened CommandLayout
  import opened LayerRuns
  import opened Lockstep
  import opened Names
  import opened Peers
  import opened SessionLayer
  import opened Tpm2

  /** A command to be sent, with the number of its handles and the size of its buffer. */
  datatype Outgoing = Outgoing(cmd: bytes, handleCount: nat, capacity: nat)

  ghost predicate Sendable(o: Outgoing) {
    Framed(o.cmd, o.capacity) && o.capacity < 0x1_0000_0000
    && (Known(Read32(o.cmd, 6)) ==> o.handleCount == CommandHandles(Read32(o.cmd, 6)))
  }

  /** An exchange in which an orderly TPM, which rolls every session in the area, answers the command. */
  ghost predicate OrderlyAnswer(crypto: Crypto, l: Layer, p: Peer, o: Outgoing, x: Exchange)
    requires Sendable(o)
  {
    && x.cmd == o.cmd && x.handleCount == o.handleCount && x.capacity == o.capacity
    && Possible(crypto, l, p, x)
    && OrderlySuccess(o.cmd, o.handleCount, x.move) && OrderlyObjects(p, Read32(o.cmd, 6), x.move)
    && RollsAll(p, o.cmd, o.handleCount, x.move)
  }

  // ---------------------------------------------------------------------------
  // An answer for every command that can succeed
  // ---------------------------------------------------------------------------

  /** Two nonces, unlike each other and a given one. */
  function Nonces(nonce: bytes): (r: (bytes, bytes))
    ensures r.0 != r.1 && r.0 != nonce && r.1 != nonce && |r.0| == |r.1| == 16
  {
    var a, b, c := Filled(16, 1), Filled(16, 2), Filled(16, 3);
    assert a[0] != b[0] && b[0] != c[0] && a[0] != c[0];
    if nonce == a then (b, c) else if nonce == b then (a, c) else (a, b)
  }

  /** New nonces for the sessions in the area: one for the layer's, another for all others. */
  function NewNonces(l: Layer, p: Peer, o: Outgoing): map<u32, bytes> {
    map h | h in AreaSessions(o.cmd, o.handleCount) && h in p.sessions ::
      if h == l.handle then Nonces(l.nonceTpm).0 else Nonces(l.nonceTpm).1
  }

  /** Parameters that report a Name, for the commands that do. */
  function Reporting(code: u32, name: bytes): bytes {
    if code == CC_CREATE_PRIMARY then CreatePrimaryParams([], [], [], [0, 0, 0, 0, 0, 0], [], name, [])
    else if code == CC_LOAD then Tpm2b(name) + []
    else []
  }

  lemma ReportingReports(code: u32, name: bytes)
    requires MakesObject(code) && |name| < 0x1_0000
    ensures ResponseName(code, Reporting(code, name)) == Some(name)
  {
    hide Tpm2b, TakeTpm2b, CreatePrimaryParams, CreatePrimaryName;
    if code == CC_CREATE_PRIMARY {
      NameOfCreatePrimaryParams([], [], [], [0, 0, 0, 0, 0, 0], [], name, []);
    } else {
      TakeTpm2bOfTpm2b(name, []);
    }
  }

  const NEW_OBJECT: u32 := 0x8000_0000

  function NewResponse(l: Layer, p: Peer, o: Outgoing, handle: u32): Response
    requires 10 <= |o.cmd|
  {
    var code, first, rolled := Read32(o.cmd, 6), FirstSession(o.cmd, o.handleCount), NewNonces(l, p, o);
    Response(if MakesObject(code) then [NEW_OBJECT]
             else if ResponseHandles(code) == 1 then [handle] else [],
             Reporting(code, Filled(34, 0)),
             if first.Some? && first.value in rolled then rolled[first.value] else [], [])
  }

  /** The TPM executes the command, and then holds just the given objects. */
  function Performed(l: Layer, p: Peer, o: Outgoing, handle: u32, objects: map<u32, bytes>): Exchange
    requires 10 <= |o.cmd|
  {
    var rolled, response := NewNonces(l, p, o), NewResponse(l, p, o, handle);
    var created := if MakesObject(Read32(o.cmd, 6)) then Some(Object(NEW_OBJECT, Filled(34, 0))) else None;
    Exchange(o.cmd, o.handleCount, o.capacity, EncodeResponse(response),
             Executed(rolled, created, response, p.(sessions := RolledSessions(p, rolled), objects := objects)))
  }

  lemma NewResponseFits(l: Layer, p: Peer, o: Outgoing, handle: u32)
    requires 10 <= |o.cmd|
    ensures NewResponse(l, p, o, handle).WellFormed()
    ensures |NewResponse(l, p, o, handle).handles| == ResponseHandles(Read32(o.cmd, 6))
  {
    hide Read32, Filled, AreaSessions;
    var name := Filled(34, 0);
    assert |name| == 34;
  }

  lemma PerformedIsPossible(crypto: Crypto, l: Layer, p: Peer, o: Outgoing, handle: u32, objects: map<u32, bytes>)
    requires Sendable(o) && SerialsBelow(p) && AreaSessions(o.cmd, o.handleCount) != []
    requires objects == map[]
             || (objects.Keys == {handle} && handle !in p.objects
                 && Loads(Read32(o.cmd, 6)) && !MakesObject(Read32(o.cmd, 6)))
    ensures OrderlyAnswer(crypto, l, p, o, Performed(l, p, o, handle, objects))
  {
    hide Read16, Read32, Filled, AreaSessions, EncodeResponse, NewResponse, Reporting, ResponseName, Patched,
         Nonces, Known;
    var x := Performed(l, p, o, handle, objects);
    SentKeeps(crypto, l, x, x.handleCount);
    NewResponseFits(l, p, o, handle);
    NewResponseParts(l, p, o, handle);
  }

  lemma NewResponseParts(l: Layer, p: Peer, o: Outgoing, handle: u32)
    requires 10 <= |o.cmd|
    ensures var r, rolled := NewResponse(l, p, o, handle), NewNonces(l, p, o);
            var first := FirstSession(o.cmd, o.handleCount);
            && r.nonce == (if first.Some? && first.value in rolled then rolled[first.value] else [])
            && (MakesObject(Read32(o.cmd, 6)) ==>
                  && r.handles == [NEW_OBJECT] && |Filled(34, 0)| == 34 && Transient(NEW_OBJECT)
                  && ResponseName(Read32(o.cmd, 6), r.params) == Some(Filled(34, 0)))
  {
    hide Read32, Filled, AreaSessions, ResponseName, Reporting;
    if MakesObject(Read32(o.cmd, 6)) {
      ReportingReports(Read32(o.cmd, 6), Filled(34, 0));
    }
  }

  // ---------------------------------------------------------------------------
  // Names
  // ---------------------------------------------------------------------------

  /** A success without an area that brings an object in. */
  function Appearing(p: Peer, o: Outgoing, handle: u32, name: bytes): Exchange {
    Exchange(o.cmd, o.handleCount, o.capacity, Header(ST_NO_SESSIONS, 14, RC_SUCCESS) + Be32(handle),
             Unauthorized(p.(objects := map[handle := name])))
  }

  lemma AppearingIsPossible(crypto: Crypto, l: Layer, p: Peer, o: Outgoing, handle: u32, name: bytes)
    requires Sendable(o) && SerialsBelow(p) && Read16(o.cmd, 0) == ST_NO_SESSIONS && handle !in p.objects
    requires Loads(Read32(o.cmd, 6)) && !MakesObject(Read32(o.cmd, 6))
    ensures OrderlyAnswer(crypto, l, p, o, Appearing(p, o, handle, name))
  {
    hide Be16, Be32, Read16, Read32, Header, AreaSessions, Patched, Known;
    var x := Appearing(p, o, handle, name);
    SentKeeps(crypto, l, x, x.handleCount);
    HeaderFields(x.resp, ST_NO_SESSIONS, 14, RC_SUCCESS);
  }

  /** A Name of the usual size that is not the given one. */
  function OtherName(name: bytes): (r: bytes)
    ensures r != name && |r| == 34
  {
    assert Filled(34, 0)[0] != Filled(34, 1)[0];
    if name == Filled(34, 0) then Filled(34, 1) else Filled(34, 0)
  }

  /** The answer that brings another object in under a handle that the layer has a Name for. */
  function Replacing(l: Layer, p: Peer, o: Outgoing, handle: u32): Exchange
    requires 10 <= |o.cmd|
  {
    var name := OtherName(NameIn(l.names, handle));
    if Read16(o.cmd, 0) == ST_NO_SESSIONS then Appearing(p, o, handle, name)
    else Performed(l, p, o, handle, map[handle := name])
  }

  /** A command that loads something unreported while a named handle is free can leave the layer with an old Name. */
  lemma ReplacingBreaksNames(crypto: Crypto, l: Layer, tracked: nat, p: Peer, o: Outgoing, handle: u32)
    requires AtRest(l, tracked, p) && SameNames(l, p) && Sendable(o) && CanSucceed(o.cmd, o.handleCount)
    requires Loads(Read32(o.cmd, 6)) && !MakesObject(Read32(o.cmd, 6)) && Has(l.names, handle) && handle !in p.objects
    ensures var x := Replacing(l, p, o, handle);
            OrderlyAnswer(crypto, l, p, o, x) && !SameNames(Exchanged(l, x), x.move.after)
  {
    hide Inv, Read16, Read32, AreaSessions, EncodeResponse, NewResponse, ResponseName, Patched, Known, Has,
         NameIn, Possible, Loads, MakesObject, Exchanged, OrderlyObjects, OrderlySuccess, RollsAll, NewNonces,
         Header, Be32;
    var x, name := Replacing(l, p, o, handle), OtherName(NameIn(l.names, handle));
    if Read16(o.cmd, 0) == ST_NO_SESSIONS {
      AppearingIsPossible(crypto, l, p, o, handle, name);
    } else {
      PerformedIsPossible(crypto, l, p, o, handle, map[handle := name]);
    }
    assert x.move.after.objects == map[handle := name];
    NamesStayExactly(crypto, l, tracked, p, x);
  }

  /** Every answer to a command leaves the recorded Names right if and only if the command keeps Names. */
  lemma NamesKeptExactly(crypto: Crypto, l: Layer, tracked: nat, p: Peer, o: Outgoing)
    requires AtRest(l, tracked, p) && SameNames(l, p) && Sendable(o)
    ensures (forall x | OrderlyAnswer(crypto, l, p, o, x) :: SameNames(Exchanged(l, x), x.move.after))
            <==> CommandKeepsNames(l, p, o.cmd, o.handleCount)
  {
    hide AtRest, SameNames, Possible, Loads, MakesObject, Exchanged, OrderlyObjects, OrderlySuccess, RollsAll,
         CanSucceed, NamesInStep, Has, NameIn, Replacing, Framed, Known;
    LengthOf(o);
    if CommandKeepsNames(l, p, o.cmd, o.handleCount) {
      forall x | OrderlyAnswer(crypto, l, p, o, x) ensures SameNames(Exchanged(l, x), x.move.after) {
        NamesInStepByCommand(l, tracked, p, x);
        NamesStayExactly(crypto, l, tracked, p, x);
      }
    } else {
      var handle :| Has(l.names, handle) && handle !in p.objects;
      ReplacingBreaksNames(crypto, l, tracked, p, o, handle);
      assert OrderlyAnswer(crypto, l, p, o, Replacing(l, p, o, handle));
    }
  }

  lemma LengthOf(o: Outgoing)
    requires Sendable(o)
    ensures 10 <= |o.cmd|
  {
  }

  // ---------------------------------------------------------------------------
  // Nonces
  // ---------------------------------------------------------------------------

  /** A command out of step leaves the two sides with different nonces when it is executed. */
  lemma PerformedBreaksNonce(crypto: Crypto, l: Layer, tracked: nat, p: Peer, o: Outgoing)
    requires AtRest(l, tracked, p) && SameNonce(l, tracked, p) && Sendable(o) && Held(l, tracked, p)
    requires !CommandInStep(l, p, o.cmd, o.handleCount)
    ensures var x := Performed(l, p, o, NEW_OBJECT, map[]);
            && OrderlyAnswer(crypto, l, p, o, x) && Tracked(l, tracked, p, x) == tracked
            && Held(Exchanged(l, x), tracked, x.move.after) && !SameNonce(Exchanged(l, x), tracked, x.move.after)
  {
    hide Inv, Read16, Read32, AreaSessions, EncodeResponse, NewResponse, ResponseName, Patched, Known,
         SameNonce, Possible, Loads, MakesObject, Exchanged, OrderlyObjects, OrderlySuccess, Tracked,
         TransientNames;
    var x := Performed(l, p, o, NEW_OBJECT, map[]);
    PerformedIsPossible(crypto, l, p, o, NEW_OBJECT, map[]);
    PerformedKeepsSession(crypto, l, tracked, p, o);
    InStepByCommand(crypto, l, tracked, p, x);
    NonceWhileHeld(l, tracked, p);
    assert Fresh(l, p, x.move);
    ExecutedNonce(crypto, l, tracked, p, x);
  }

  lemma NonceWhileHeld(l: Layer, tracked: nat, p: Peer)
    requires SameNonce(l, tracked, p) && Held(l, tracked, p)
    ensures p.sessions[l.handle].nonce == l.nonceTpm
  {
  }

  lemma PerformedKeepsSession(crypto: Crypto, l: Layer, tracked: nat, p: Peer, o: Outgoing)
    requires AtRest(l, tracked, p) && Sendable(o) && Held(l, tracked, p)
    requires OrderlyAnswer(crypto, l, p, o, Performed(l, p, o, NEW_OBJECT, map[]))
    ensures var x := Performed(l, p, o, NEW_OBJECT, map[]);
            && Held(Exchanged(l, x), tracked, x.move.after)
  {
    hide Inv, Read16, Read32, AreaSessions, EncodeResponse, NewResponse, ResponseName, Patched, Known,
         Possible, Loads, MakesObject, Exchanged, OrderlyObjects, OrderlySuccess, Tracked, TransientNames,
         RollsAll, NewNonces;
    ExecutedLayer(crypto, l, p, Performed(l, p, o, NEW_OBJECT, map[]));
  }

  /**
    Every answer to a command leaves both sides with the same nonce if and only if it
    is in step, or the session is gone.
   */
  lemma NonceKeptExactly(crypto: Crypto, l: Layer, tracked: nat, p: Peer, o: Outgoing)
    requires AtRest(l, tracked, p) && SameNonce(l, tracked, p) && Sendable(o)
    ensures (forall x | OrderlyAnswer(crypto, l, p, o, x) ::
               SameNonce(Exchanged(l, x), Tracked(l, tracked, p, x), x.move.after))
            <==> (Held(l, tracked, p) ==> CommandInStep(l, p, o.cmd, o.handleCount))
  {
    hide AtRest, SameNonce, Possible, Loads, MakesObject, Exchanged, OrderlyObjects, OrderlySuccess, RollsAll,
         CommandInStep, Framed, Known, Tracked, Performed;
    LengthOf(o);
    if Held(l, tracked, p) && !CommandInStep(l, p, o.cmd, o.handleCount) {
      PerformedBreaksNonce(crypto, l, tracked, p, o);
      assert OrderlyAnswer(crypto, l, p, o, Performed(l, p, o, NEW_OBJECT, map[]));
    } else {
      forall x | OrderlyAnswer(crypto, l, p, o, x)
        ensures SameNonce(Exchanged(l, x), Tracked(l, tracked, p, x), x.move.after)
      {
        InStepByCommand(crypto, l, tracked, p, x);
        ExchangeNonce(crypto, l, tracked, p, x);
      }
    }
  }

  /** Both together: what may be sent without losing lockstep, whatever an orderly TPM answers. */
  lemma LockstepKeptExactly(crypto: Crypto, l: Layer, tracked: nat, p: Peer, o: Outgoing)
    requires InLockstep(l, tracked, p) && Sendable(o)
    ensures (forall x | OrderlyAnswer(crypto, l, p, o, x) ::
               InLockstep(Exchanged(l, x), Tracked(l, tracked, p, x), x.move.after))
            <==> CommandKeepsNames(l, p, o.cmd, o.handleCount)
                 && (Held(l, tracked, p) ==> CommandInStep(l, p, o.cmd, o.handleCount))
  {
    hide AtRest, SameNonce, SameNames, Sendable, OrderlyAnswer, Exchanged, CommandInStep, CommandKeepsNames,
         Tracked, Held;
    LengthOf(o);
    NamesKeptExactly(crypto, l, tracked, p, o);
    NonceKeptExactly(crypto, l, tracked, p, o);
    forall x | OrderlyAnswer(crypto, l, p, o, x)
      ensures AtRest(Exchanged(l, x), Tracked(l, tracked, p, x), x.move.after)
    {
      AnswerIsPossible(crypto, l, p, o, x);
      ExchangeRests(crypto, l, tracked, p, x);
    }
  }

  lemma AnswerIsPossible(crypto: Crypto, l: Layer, p: Peer, o: Outgoing, x: Exchange)
    requires Sendable(o) && OrderlyAnswer(crypto, l, p, o, x)
    ensures Possible(crypto, l, p, x)
  {
  }
}
