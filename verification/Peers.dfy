/**
  An abstract TPM: what it holds, and which responses it may give. It may refuse,
  and sessions and objects may come and go with any command. All that is asked of it
  is that responses are well formed and tell the truth about what they report.
 */
module Peers {
  import opened Bytes
  import opened CommandAttributes
  import opened CommandLayout
  import opened Names
  import opened SessionLayer
  import opened StartAuthSession
  import opened Tpm2

  /** The serial number tells a session from a later one that reuses its handle. */
  datatype PeerSession = PeerSession(serial: nat, nonce: bytes, key: bytes)

  /** Sessions, the Names of loaded objects, and authorization values (empty unless listed), by handle. */
  datatype Peer = Peer(
    sessions: map<u32, PeerSession>, objects: map<u32, bytes>, authValues: map<u32, bytes>, nextSerial: nat)

  datatype Object = Object(handle: u32, name: bytes)

  /** What the peer did with a command. */
  datatype Move =
    | Refused(after: Peer)
    | Started(handle: u32, session: PeerSession, after: Peer)
    | Unauthorized(after: Peer)  // success without an authorization area
    | Executed(rolled: map<u32, bytes>, created: Option<Object>, response: Response, after: Peer)

  ghost predicate SerialsBelow(p: Peer) {
    forall h | h in p.sessions :: p.sessions[h].serial < p.nextSerial
  }

  /** Each session afterwards is one of base, untouched, or new. */
  ghost predicate SessionsFrom(p: Peer, base: map<u32, PeerSession>, after: Peer) {
    && p.nextSerial <= after.nextSerial && SerialsBelow(after)
    && forall h | h in after.sessions ::
         (h in base && after.sessions[h] == base[h]) || p.nextSerial <= after.sessions[h].serial
  }

  /** The sessions with new nonces for some of them. */
  function RolledSessions(p: Peer, rolled: map<u32, bytes>): map<u32, PeerSession> {
    map h | h in p.sessions ::
      if h in rolled then p.sessions[h].(nonce := rolled[h]) else p.sessions[h]
  }

  function HandlesIn(es: seq<AuthEntry>): (hs: seq<u32>)
    ensures |hs| == |es| && forall i | 0 <= i < |es| :: hs[i] == es[i].handle
  {
    if |es| == 0 then [] else [es[0].handle] + HandlesIn(es[1..])
  }

  /** The session handles in a command's authorization area, in order; without the tag there is no area. */
  function AreaSessions(cmd: bytes, handleCount: nat): seq<u32> {
    if |cmd| < 2 || Read16(cmd, 0) != ST_SESSIONS then []
    else
      match ParseCommand(cmd, handleCount)
      case None => []
      case Some(c) => HandlesIn(c.auth)
  }

  /** The session whose new nonce comes first in the response. */
  function FirstSession(cmd: bytes, handleCount: nat): Option<u32> {
    var area := AreaSessions(cmd, handleCount);
    if |area| == 0 then None else Some(area[0])
  }

  // The TPM's own rules, by the numbers of Part 2 and Part 3 of the TPM 2.0 Library
  // specification, whatever the layer's tables say.

  /** Handles in the handle area of a command. */
  function CommandHandles(code: u32): nat {
    if code in {0x161, 0x165, 0x17A, 0x17B} then 0 else if code in {0x147, 0x176} then 2 else 1
  }

  /** Whether a command's first handle is authorized. */
  predicate AuthorizesHandle(code: u32) {
    code !in {0x161, 0x162, 0x165, 0x168, 0x176, 0x177, 0x17A, 0x17B}
  }

  /** Handles in the handle area of a response: those of new objects, sequences and sessions. */
  function ResponseHandles(code: u32): nat {
    if code in {0x131, 0x157, 0x15B, 0x161, 0x167, 0x176, 0x186, 0x191} then 1 else 0
  }

  /** PCRs, HMAC and policy sessions, and permanent entities are their own Names. */
  predicate NamesItself(handle: u32) {
    handle < 0x0100_0000 || 0x0200_0000 <= handle < 0x0400_0000 || 0x4000_0000 <= handle < 0x4100_0000
  }

  /** Transient and persistent objects. */
  predicate IsObject(handle: u32) {
    0x8000_0000 <= handle < 0x8200_0000
  }

  /** The layer's tables and kinds of handles are the TPM's, for the commands it knows. */
  lemma LayerKnowsRules(code: u32, handle: u32)
    ensures Known(code) ==> HandleCount(code) == CommandHandles(code) && OutHandleCount(code) == ResponseHandles(code)
                            && (AuthHandleCount(code) != 0 <==> AuthorizesHandle(code))
    ensures NamedByValue(handle) <==> NamesItself(handle)
    ensures NamedByObject(handle) <==> IsObject(handle)
  {
    TableByNumber(code);
  }

  /** Transient objects are those that a command brings in; persistent ones have handles of their own. */
  predicate Transient(handle: u32) {
    0x8000_0000 <= handle < 0x8100_0000
  }

  /** The peer in state p may answer the command sent, with so many handles, with resp, by this move. */
  ghost predicate Answers(p: Peer, sent: bytes, handleCount: nat, resp: bytes, m: Move)
    requires 10 <= |sent|
  {
    var code := Read32(sent, 6);
    match m
    case Refused(after) =>
      && 10 <= |resp| && Read32(resp, 2) == |resp| && Read32(resp, 6) != RC_SUCCESS
      && SessionsFrom(p, p.sessions, after)
    case Started(handle, session, after) =>
      && ParseStartAuth(sent).Some? && 1 <= |session.nonce| <= 64
      && session.serial == p.nextSerial && (ParseStartAuth(sent).value.Plain() ==> session.key == [])
      && resp == EncodeStartAuthResponse(handle, session.nonce)
      && SessionsFrom(p, p.sessions, after)
      && handle in after.sessions && after.sessions[handle] == session
    case Unauthorized(after) =>
      && 10 <= |resp| && Read32(resp, 2) == |resp| && Read16(resp, 0) == ST_NO_SESSIONS
      && code != CC_START_AUTH_SESSION
      && SessionsFrom(p, p.sessions, after)
    case Executed(rolled, created, response, after) =>
      && response.WellFormed() && resp == EncodeResponse(response)
      && (Known(code) ==> |response.handles| == ResponseHandles(code))
      // any of the sessions in the area get new nonces, and the first authorization comes first
      && (forall h | h in rolled ::
            h in AreaSessions(sent, handleCount) && h in p.sessions && 1 <= |rolled[h]| <= 64)
      && var first := FirstSession(sent, handleCount);
      && response.nonce == (if first.Some? && first.value in rolled then rolled[first.value] else [])
      && SessionsFrom(p, RolledSessions(p, rolled), after)
      // CreatePrimary and Load report the object they make
      && (created.Some? <==> MakesObject(code))
      && (created.Some? ==>
            && var o := created.value;
            && Transient(o.handle) && |o.name| <= 68 && response.handles[0] == o.handle
            && ResponseName(code, response.params) == Some(o.name)
            && (o.handle in after.objects ==> after.objects[o.handle] == o.name))
  }

  // ---------------------------------------------------------------------------
  // Orderly peers
  // ---------------------------------------------------------------------------

  /** Commands that bring a transient object in. */
  predicate Loads(code: u32) {
    MakesObject(code)
    || code in {CC_LOAD_EXTERNAL, CC_CREATE_LOADED, CC_CONTEXT_LOAD, CC_HMAC_START, CC_HASH_SEQUENCE_START}
  }

  /** Commands that can succeed: without an area, or with sessions in it. */
  predicate CanSucceed(cmd: bytes, handleCount: nat)
    requires 10 <= |cmd|
  {
    Read16(cmd, 0) == ST_NO_SESSIONS || AreaSessions(cmd, handleCount) != []
  }

  /** Success is reported with an area exactly if the command came with one. */
  ghost predicate OrderlySuccess(cmd: bytes, handleCount: nat, m: Move)
    requires 10 <= |cmd|
  {
    && (m.Executed? ==> AreaSessions(cmd, handleCount) != [])
    && (m.Started? || m.Unauthorized? ==> Read16(cmd, 0) == ST_NO_SESSIONS)
  }

  /**
    A transient object comes in only by the success of a command that brings one
    in, under a free handle, and if it is CreatePrimary or Load, as reported.
    Objects may go at any time, and persistent ones come and go.
   */
  ghost predicate OrderlyObjects(p: Peer, code: u32, m: Move) {
    forall h | h in m.after.objects && Transient(h) && !(h in p.objects && p.objects[h] == m.after.objects[h]) ::
      && h !in p.objects && Loads(code) && !m.Refused?
      && (MakesObject(code) ==> m.Executed? && m.created == Some(Object(h, m.after.objects[h])))
  }

  /** Every session in the area of a command that is executed gets a new nonce. */
  ghost predicate RollsAll(p: Peer, cmd: bytes, handleCount: nat, m: Move) {
    m.Executed? ==> forall h :: h in m.rolled <==> h in AreaSessions(cmd, handleCount) && h in p.sessions
  }
}
