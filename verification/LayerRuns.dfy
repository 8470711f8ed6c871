/** Invariants of the session layer over whole runs of commands and responses after a reset. */
module LayerRuns {
  import opened Bytes
  import opened CommandAttributes
  import opened CommandLayout
  import opened Names
  import opened SessionLayer
  import opened Tpm2

  datatype Event = Sent(cmd: bytes, capacity: nat) | Received(resp: bytes)

  function Step(l: Layer, e: Event): Layer {
    match e
    case Sent(cmd, capacity) => AfterCommand(l, cmd, capacity)
    case Received(resp) => AfterResponse(l, resp)
  }

  /** The layer after a run that starts at a reset. */
  function Run(events: seq<Event>): Layer {
    if |events| == 0 then RESET else Step(Run(events[..|events| - 1]), events[|events| - 1])
  }

  /** What holds of the layer at all times. */
  ghost predicate Inv(l: Layer) {
    && Bounded(l.names) && |l.nonceTpm| <= MAX_DIGEST && l.sessionKey == []
    && (l.compatible ==> l.pending && l.authHash == ALG_SHA256)
    && (l.initialized ==> l.hashAlg == ALG_SHA256 && l.digestSize == 32)
    && (!l.initialized ==> l.handle == 0 && l.nonceTpm == [] && l.names == [])
  }

  lemma InvStep(l: Layer, e: Event)
    requires Inv(l)
    ensures Inv(Step(l, e))
  {
    hide Be16, Be32, Read16, Read32, TakeTpm2b, ParseResponse, OfferIn;
    match e
    case Sent(cmd, capacity) =>
    case Received(resp) =>
      if 10 <= |resp| && Read32(resp, 2) == |resp| && !l.pending && Known(l.lastCommandCode) {
        match ParseResponse(resp, OutHandleCount(l.lastCommandCode))
        case None =>
        case Some(r) =>
          if |r.handles| != 0 {
            match ResponseName(l.lastCommandCode, r.params)
            case None =>
            case Some(name) => AddedEffect(l.names, r.handles[0], name);
          }
      }
  }

  /**
    In every reachable state the buffers hold what they are given room for: a
    nonce of at most 64 bytes, an empty key, at most 16 Names of at most 68 bytes.
    A compatible offer is pending and for SHA-256, and so is an armed session.
   */
  lemma {:induction false} RunKeepsInv(events: seq<Event>)
    ensures Inv(Run(events))
    ensures var l := Run(events);
            && |l.nonceTpm| <= 64 && |l.names| <= 16 && l.sessionKey == []
            && (forall i | 0 <= i < |l.names| :: |l.names[i].name| <= 68)
            && (forall i, j | 0 <= i < j < |l.names| :: l.names[i].handle != l.names[j].handle)
            && (l.compatible ==> l.pending && l.authHash == 0x000B)
            && (l.initialized ==> l.hashAlg == 0x000B && l.digestSize == 32)
  {
    if |events| != 0 {
      RunKeepsInv(events[..|events| - 1]);
      InvStep(Run(events[..|events| - 1]), events[|events| - 1]);
    }
  }

  /** The HMAC message fits its array: cpHash, both nonces, and the attributes. */
  lemma {:induction false} HmacMessageFits(events: seq<Event>)
    ensures 32 + |NONCE_CALLER| + |Run(events).nonceTpm| + 1 <= 113
  {
    RunKeepsInv(events);
  }

  // ---------------------------------------------------------------------------
  // Which Names the layer knows
  // ---------------------------------------------------------------------------

  /** Whether an event arms the layer with a new session. */
  predicate Arms(l: Layer, e: Event) {
    e.Received? && StartsSession(e.resp) && l.pending && l.compatible
  }

  /** The handle and Name of a new object that an event tells an armed layer about. */
  function Reported(l: Layer, e: Event): Option<NameEntry> {
    if e.Sent? || !IsSized(e) || !l.initialized || l.pending || !MakesObject(l.lastCommandCode)
       || Read16(e.resp, 0) != ST_SESSIONS || Read32(e.resp, 6) != RC_SUCCESS
    then None
    else
      var r :- ParseResponse(e.resp, 1);
      var name :- ResponseName(l.lastCommandCode, r.params);
      Some(NameEntry(r.handles[0], name))
  }

  /** All that has been reported since the layer was last armed, in order. */
  function History(events: seq<Event>): seq<NameEntry> {
    if |events| == 0 then []
    else
      var past, e := events[..|events| - 1], events[|events| - 1];
      if Arms(Run(past), e) then []
      else
        match Reported(Run(past), e)
        case None => History(past)
        case Some(entry) => History(past) + [entry]
  }

  /** Arming forgets all Names, a report adds one, and nothing else changes them. */
  lemma NamesStep(l: Layer, e: Event)
    ensures Step(l, e).names ==
            if Arms(l, e) then []
            else
              match Reported(l, e)
              case None => l.names
              case Some(entry) => Added(l.names, entry.handle, entry.name)
  {
    hide Read16, Read32, TakeTpm2b, CreatePrimaryName, LoadName, OfferIn, Added;
    if e.Received? && 16 <= |e.resp| {
      NonceAt(e.resp);
    }
  }

  /**
    After any run the layer knows exactly what has been reported since it was last
    armed, as a bounded map: the first 16 distinct handles, each with the latest
    Name reported for it, cut to 68 bytes.
   */
  lemma {:induction false} RunNamesAreBoundedMap(events: seq<Event>)
    ensures Run(events).names == Replay(History(events))
    ensures Holds(Run(events).names, History(events)) && Fills(Run(events).names, History(events))
  {
    hide Added, Step, Holds, Fills, Arms, Reported;
    if |events| != 0 {
      var past, e := events[..|events| - 1], events[|events| - 1];
      RunNamesAreBoundedMap(past);
      NamesStep(Run(past), e);
      if !Arms(Run(past), e) && Reported(Run(past), e).Some? {
        assert History(events)[..|History(events)| - 1] == History(past);
      }
    }
    ReplayIsBoundedMap(History(events));
  }

  // ---------------------------------------------------------------------------
  // When the layer arms
  // ---------------------------------------------------------------------------

  predicate IsStartAuth(e: Event) {
    e.Sent? && Framed(e.cmd, e.capacity) && Read32(e.cmd, 6) == CC_START_AUTH_SESSION
  }

  predicate IsSized(e: Event) {
    e.Received? && 10 <= |e.resp| && Read32(e.resp, 2) == |e.resp|
  }

  /** Event i starts a session, and no usable response or newer start has followed. */
  ghost predicate Unanswered(events: seq<Event>, i: nat) {
    && i < |events| && IsStartAuth(events[i])
    && forall j | i < j < |events| :: !IsStartAuth(events[j]) && !IsSized(events[j])
  }

  lemma UnansweredStep(past: seq<Event>, e: Event, i: nat)
    ensures Unanswered(past + [e], i) <==>
            (i == |past| && IsStartAuth(e))
            || (Unanswered(past, i) && !IsStartAuth(e) && !IsSized(e))
  {
    var events := past + [e];
    assert forall j | 0 <= j < |past| :: events[j] == past[j];
    assert events[|past|] == e;
  }

  /** The bookkeeping flags mean what they should: an unanswered StartAuthSession, and its offer. */
  lemma {:induction false} PendingMeansUnanswered(events: seq<Event>)
    ensures Run(events).pending <==> exists i: nat :: Unanswered(events, i)
    ensures forall i: nat | Unanswered(events, i) ::
              var offer := OfferIn(events[i].cmd);
              && (Run(events).compatible <==> offer.Some? && offer.value.compatible)
              && (offer.Some? ==> Run(events).authHash == offer.value.authHash)
  {
    if |events| != 0 {
      var past, e := events[..|events| - 1], events[|events| - 1];
      assert events == past + [e];
      PendingMeansUnanswered(past);
      forall i: nat ensures Unanswered(events, i) <==>
        (i == |past| && IsStartAuth(e)) || (Unanswered(past, i) && !IsStartAuth(e) && !IsSized(e))
      {
        UnansweredStep(past, e, i);
      }
      PendingStep(Run(past), e);
      if IsStartAuth(e) {
        assert Unanswered(events, |past|);
      } else if !IsSized(e) && Run(past).pending {
        var i: nat :| Unanswered(past, i);
        assert Unanswered(events, i);
      }
    }
  }

  /** One event's effect on the flags: a response of a bad size leaves them set. */
  lemma PendingStep(l: Layer, e: Event)
    ensures IsStartAuth(e) ==>
              var l', offer := Step(l, e), OfferIn(e.cmd);
              && l'.pending && (l'.compatible <==> offer.Some? && offer.value.compatible)
              && (offer.Some? ==> l'.authHash == offer.value.authHash)
    ensures IsSized(e) ==> !Step(l, e).pending
    ensures !IsStartAuth(e) && !IsSized(e) ==>
              var l' := Step(l, e);
              l'.pending == l.pending && l'.compatible == l.compatible && l'.authHash == l.authHash
  {
  }

  /** A well-formed successful StartAuthSession response. */
  predicate StartsSession(resp: bytes) {
    && 16 <= |resp| && Read32(resp, 2) == |resp|
    && Read16(resp, 0) == ST_NO_SESSIONS && Read32(resp, 6) == RC_SUCCESS
    && 16 + Read16(resp, 14) <= |resp|
  }

  ghost predicate SameSession(l: Layer, l': Layer) {
    && l'.initialized == l.initialized && l'.handle == l.handle && l'.hashAlg == l.hashAlg
    && l'.digestSize == l.digestSize && l'.sessionKey == l.sessionKey
  }

  /**
    Over a whole run the layer takes on a session exactly when an event is a
    successful response to an unanswered StartAuthSession whose offer is
    compatible; then its state is that session's and nothing else. Any other
    event leaves handle, algorithm and key alone, and an answer that does not arm
    leaves the nonce and the Names alone too.
   */
  lemma ArmsExactlyOnCompatibleAnswer(events: seq<Event>, e: Event, i: nat)
    requires Unanswered(events, i)
    ensures var l, l', offer := Run(events), Run(events + [e]), OfferIn(events[i].cmd);
            if e.Received? && StartsSession(e.resp) && offer.Some? && offer.value.compatible
            then l' == Armed(Read32(e.resp, 10), e.resp[16..16 + Read16(e.resp, 14)], [], ALG_SHA256)
            else SameSession(l, l') && l'.nonceTpm == l.nonceTpm && l'.names == l.names
  {
    PendingMeansUnanswered(events);
    RunSnoc(events, e);
    assert Run(events).compatible ==> Run(events).authHash == ALG_SHA256 by {
      RunKeepsInv(events);
    }
    match e
    case Sent(cmd, capacity) => SendingKeepsSession(Run(events), cmd, capacity);
    case Received(resp) => AnswerStep(Run(events), resp);
  }

  lemma RunSnoc(events: seq<Event>, e: Event)
    ensures Run(events + [e]) == Step(Run(events), e)
  {
    assert (events + [e])[..|events|] == events;
  }

  lemma SendingKeepsSession(l: Layer, cmd: bytes, capacity: nat)
    ensures var l' := AfterCommand(l, cmd, capacity);
            SameSession(l, l') && l'.nonceTpm == l.nonceTpm && l'.names == l.names
  {
  }

  lemma AnswerStep(l: Layer, resp: bytes)
    requires l.pending && (l.compatible ==> l.authHash == ALG_SHA256)
    ensures var l' := AfterResponse(l, resp);
            if StartsSession(resp) && l.compatible
            then l' == Armed(Read32(resp, 10), resp[16..16 + Read16(resp, 14)], [], ALG_SHA256)
            else SameSession(l, l') && l'.nonceTpm == l.nonceTpm && l'.names == l.names
  {
    if 16 <= |resp| {
      NonceAt(resp);
    }
  }

  /** With no StartAuthSession outstanding, no event changes which session the layer uses. */
  lemma IdleKeepsSession(events: seq<Event>, e: Event)
    requires forall i: nat :: !Unanswered(events, i)
    ensures SameSession(Run(events), Run(events + [e]))
  {
    PendingMeansUnanswered(events);
    RunSnoc(events, e);
    IdleStepKeepsSession(Run(events), e);
  }

  lemma IdleStepKeepsSession(l: Layer, e: Event)
    requires !l.pending
    ensures SameSession(l, Step(l, e))
  {
    hide Read16, Read32, TakeTpm2b, ParseResponse, ResponseName, Added, OfferIn;
  }

  // ---------------------------------------------------------------------------
  // Which session the layer reports
  // ---------------------------------------------------------------------------

  /** A command with a compatible offer. */
  predicate Offers(e: Event) {
    e.Sent? && OfferIn(e.cmd).Some? && OfferIn(e.cmd).value.compatible
  }

  /** Event i is a successful response to an unanswered StartAuthSession with a compatible offer. */
  ghost predicate ArmsAt(events: seq<Event>, i: nat) {
    && i < |events| && events[i].Received? && StartsSession(events[i].resp)
    && exists j: nat :: Unanswered(events[..i], j) && Offers(events[j])
  }

  lemma ArmsAtLast(past: seq<Event>, e: Event)
    ensures ArmsAt(past + [e], |past|) <==> Arms(Run(past), e)
  {
    hide OfferIn, Read16, Read32, Run, StartsSession;
    PendingMeansUnanswered(past);
    var events := past + [e];
    assert events[..|past|] == past && events[|past|] == e && forall j | 0 <= j < |past| :: events[j] == past[j];
    if Arms(Run(past), e) {
      var j: nat :| Unanswered(past, j);
      assert Unanswered(events[..|past|], j) && Offers(events[j]);
    }
  }

  lemma ArmsAtBefore(past: seq<Event>, e: Event, i: nat)
    requires i < |past|
    ensures ArmsAt(past + [e], i) <==> ArmsAt(past, i)
  {
    assert (past + [e])[..i] == past[..i];
  }

  /** An event arms the layer with its handle, or keeps session and handle. */
  lemma ArmingStep(events: seq<Event>, e: Event)
    ensures var l, l' := Run(events), Run(events + [e]);
            if Arms(l, e) then l'.initialized && l'.handle == HandleIn(e)
            else l'.initialized == l.initialized && l'.handle == l.handle
  {
    hide OfferIn, Read16, Read32, Run, StartsSession;
    RunSnoc(events, e);
    RunKeepsInv(events);
    var l := Run(events);
    match e
    case Sent(cmd, capacity) => SendingKeepsSession(l, cmd, capacity);
    case Received(resp) =>
      if l.pending {
        AnswerStep(l, resp);
        if StartsSession(resp) {
          ArmedWith(resp);
        }
      } else {
        IdleStepKeepsSession(l, e);
      }
  }

  lemma ArmedWith(resp: bytes)
    requires StartsSession(resp)
    ensures var l := Armed(Read32(resp, 10), resp[16..16 + Read16(resp, 14)], [], ALG_SHA256);
            l.initialized && l.handle == Read32(resp, 10)
  {
  }

  /** i is the latest event that armed the layer. */
  ghost predicate LatestArming(events: seq<Event>, i: nat) {
    ArmsAt(events, i) && forall k | i < k < |events| :: !ArmsAt(events, k)
  }

  /**
    Over a whole run the session handle is that of the latest response that armed
    the layer, and 0 if none has.
   */
  lemma {:induction false} SessionHandleIsLatest(events: seq<Event>)
    ensures Run(events).initialized <==> exists i: nat :: LatestArming(events, i)
    ensures (forall i: nat :: !ArmsAt(events, i)) ==> SessionHandle(Run(events)) == 0
    ensures forall i: nat | LatestArming(events, i) :: SessionHandle(Run(events)) == HandleIn(events[i])
  {
    hide ArmsAt, Arms, Read32, Run;
    EmptyRun();
    forall i: nat | ArmsAt(events, i) ensures i < |events| { ArmsWithin(events, i); }
    if |events| != 0 {
      var past, e, n := events[..|events| - 1], events[|events| - 1], |events| - 1;
      assert events == past + [e];
      SessionHandleIsLatest(past);
      ArmsAtLast(past, e);
      ArmingStep(past, e);
      if Arms(Run(past), e) {
        assert LatestArming(events, n);
      } else {
        forall i: nat ensures LatestArming(events, i) <==> LatestArming(past, i) { LatestStep(past, e, i); }
      }
    }
  }

  lemma EmptyRun()
    ensures !Run([]).initialized
  {
  }

  lemma ArmsWithin(events: seq<Event>, i: nat)
    requires ArmsAt(events, i)
    ensures i < |events|
  {
  }

  lemma LatestStep(past: seq<Event>, e: Event, i: nat)
    requires !ArmsAt(past + [e], |past|)
    ensures LatestArming(past + [e], i) <==> LatestArming(past, i)
  {
    hide ArmsAt;
    if i < |past| {
      forall k: nat | k < |past| ensures ArmsAt(past + [e], k) <==> ArmsAt(past, k) { ArmsAtBefore(past, e, k); }
    } else {
      if ArmsAt(past, i) { ArmsWithin(past, i); }
      if ArmsAt(past + [e], i) { ArmsWithin(past + [e], i); }
    }
  }

  /** The handle in a response that is long enough. */
  function HandleIn(e: Event): u32 {
    if e.Received? && 14 <= |e.resp| then Read32(e.resp, 10) else 0
  }

  lemma NonceAt(resp: bytes)
    requires 16 <= |resp|
    ensures TakeTpm2b(resp[14..]).Some? <==> 16 + Read16(resp, 14) <= |resp|
    ensures TakeTpm2b(resp[14..]).Some? ==>
              TakeTpm2b(resp[14..]).value.payload == resp[16..16 + Read16(resp, 14)]
  {
    var t := resp[14..];
    assert t[0..2] == resp[14..16];
    ReadSame16(t, 0, resp, 14);
    if 16 + Read16(resp, 14) <= |resp| {
      assert t[2..2 + Read16(resp, 14)] == resp[16..16 + Read16(resp, 14)];
    }
  }

  // ---------------------------------------------------------------------------
  // Names in responses
  // ---------------------------------------------------------------------------

  /** CreatePrimary response parameters: three TPM2Bs, six ticket bytes, a TPM2B, the Name. */
  function CreatePrimaryParams(outPublic: bytes, creationData: bytes, creationHash: bytes, ticket: bytes,
                               ticketDigest: bytes, name: bytes, trailing: bytes): bytes
    requires |ticket| == 6
  {
    Tpm2b(outPublic) + (Tpm2b(creationData) + (Tpm2b(creationHash)
    + (ticket + (Tpm2b(ticketDigest) + (Tpm2b(name) + trailing)))))
  }

  /** From a well-formed parameter block exactly the Name field is taken. */
  lemma NameOfCreatePrimaryParams(outPublic: bytes, creationData: bytes, creationHash: bytes, ticket: bytes,
                                  ticketDigest: bytes, name: bytes, trailing: bytes)
    requires |ticket| == 6
    requires |outPublic| < 0x1_0000 && |creationData| < 0x1_0000 && |creationHash| < 0x1_0000
    requires |ticketDigest| < 0x1_0000 && |name| < 0x1_0000
    ensures CreatePrimaryName(CreatePrimaryParams(outPublic, creationData, creationHash, ticket,
                                                  ticketDigest, name, trailing)) == Some(name)
  {
    var t5 := Tpm2b(name) + trailing;
    var t4 := Tpm2b(ticketDigest) + t5;
    var t3 := ticket + t4;
    var t2 := Tpm2b(creationHash) + t3;
    TakeTpm2bOfTpm2b(name, trailing);
    TakeTpm2bOfTpm2b(ticketDigest, t5);
    assert t3[6..] == t4;
    TakeTpm2bOfTpm2b(creationHash, t3);
    TakeTpm2bOfTpm2b(creationData, t2);
    TakeTpm2bOfTpm2b(outPublic, Tpm2b(creationData) + t2);
  }

  /** A Name is found only in a well-formed parameter block. */
  lemma NameOnlyInCreatePrimaryParams(params: bytes)
    requires CreatePrimaryName(params).Some?
    ensures exists a, b, c, t, d, rest | |t| == 6 ::
              params == CreatePrimaryParams(a, b, c, t, d, CreatePrimaryName(params).value, rest)
  {
    hide TakeTpm2b, Tpm2b, CreatePrimaryParams;
    var a := TakeTpm2b(params).value;
    var b := TakeTpm2b(a.rest).value;
    var c := TakeTpm2b(b.rest).value;
    var t, rest := c.rest[..6], c.rest[6..];
    assert c.rest == t + rest;
    var d := TakeTpm2b(rest).value;
    var n := TakeTpm2b(d.rest).value;
    BlockOf(params, a, b, c, t, rest, d, n);
  }

  lemma BlockOf(params: bytes, a: Field, b: Field, c: Field, t: bytes, rest: bytes, d: Field, n: Field)
    requires |t| == 6 && params == Tpm2b(a.payload) + a.rest && a.rest == Tpm2b(b.payload) + b.rest
    requires b.rest == Tpm2b(c.payload) + c.rest && c.rest == t + rest
    requires rest == Tpm2b(d.payload) + d.rest && d.rest == Tpm2b(n.payload) + n.rest
    ensures params == CreatePrimaryParams(a.payload, b.payload, c.payload, t, d.payload, n.payload, n.rest)
  {
  }
}
