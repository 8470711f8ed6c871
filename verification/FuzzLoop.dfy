/**
  The proto fuzzer's loop (src/proto-fuzzer.cc): marshal, add headroom, patch,
  send, process the response. Here marshalling, patching and the peer meet.
 */
module FuzzLoop {
  import opened HmacCheck
  import opened Bytes
  import opened CommandAttributes
  import opened CommandLayout
  import opened Lockstep
  import opened Marshalling
  import opened PatchTheory
  import opened Peers
  import opened SenderConditions
  import opened SessionLayer
  import opened Tpm2
  import Names
  import SA = SessionAuth

  const HEADROOM := 64

  // ---------------------------------------------------------------------------
  // Marshalled commands have the layout that patching expects
  // ---------------------------------------------------------------------------

  /** Messages with one handle followed by sessions. */
  predicate HasSessions(m: Message) {
    m.Create? || m.CreatePrimary? || m.RsaDecrypt? || m.Clear? || m.PcrEvent? || m.PcrAllocate?
    || m.NvDefineSpace? || m.SetPrimaryPolicy? || m.Load? || m.PcrSetAuthPolicy?
  }

  /** Every such command starts with a 32-bit handle and its sessions. */
  lemma SessionsComeSecond(m: Message)
    requires HasSessions(m)
    ensures 2 <= |Body(m)| && Body(m)[1] == Sessions(m.sessions)
    ensures Body(m)[0].Uint32? || Body(m)[0].EnumUint32?
  {
  }

  /** The handle of such a message, as it goes on the wire. */
  function HandleOf(m: Message): u32
    requires HasSessions(m)
  {
    SessionsComeSecond(m);
    match Body(m)[0]
    case Uint32(h) => h
    case EnumUint32(h) => h % 0x1_0000_0000
  }

  /** A message with sessions as an abstract command. */
  function AsCommand(m: Message): Command
    requires HasSessions(m) && CommandEncoding(m).Some?
  {
    SessionsComeSecond(m);
    ParamsEncoded(m);
    Command(m.header.tag % 0x1_0000, m.header.commandCode % 0x1_0000_0000, [HandleOf(m)],
            SessionEntries(m.sessions), FieldsEncoding(Body(m)[2..]).value)
  }

  lemma ParamsEncoded(m: Message)
    requires HasSessions(m) && CommandEncoding(m).Some?
    ensures FieldsEncoding(Body(m)[2..]).Some?
    ensures FieldsEncoding(Body(m)).value ==
            Be32(HandleOf(m)) + Sized(EncodeEntries(SessionEntries(m.sessions))) + FieldsEncoding(Body(m)[2..]).value
  {
    hide Be16, Be32, Body, Header, EncodeEntries, SessionEntries, Sized;
    SessionsComeSecond(m);
    var b := Body(m);
    assert b[1..][0] == b[1] && b[1..][1..] == b[2..];
    if b[0].EnumUint32? {
      Be32Wraps(b[0].value);
    }
    assert FieldsEncoding(b).Some? && FieldsEncoding(b[1..]).Some?;
    assert FieldsEncoding(b[1..][1..]).Some?;
    var x, y, z := Be32(HandleOf(m)), Sized(EncodeEntries(SessionEntries(m.sessions))), FieldsEncoding(b[2..]).value;
    assert FieldsEncoding(b[1..]) == Some(y + z);
    assert x + (y + z) == x + y + z;
  }

  /** The code that goes with each kind of message. */
  function OwnCode(m: Message): u32
    requires !m.NotSet?
  {
    match m
    case GetRandom(_, _) => CC_GET_RANDOM
    case Create(_, _, _, _, _, _, _) => CC_CREATE
    case CreatePrimary(_, _, _, _, _, _, _) => CC_CREATE_PRIMARY
    case StartAuthSession(_, _, _, _, _, _, _, _) => CC_START_AUTH_SESSION
    case RsaDecrypt(_, _, _, _, _, _, _) => CC_RSA_DECRYPT
    case Clear(_, _, _) => CC_CLEAR
    case RsaEncrypt(_, _, _, _, _, _) => CC_RSA_ENCRYPT
    case PcrEvent(_, _, _, _) => CC_PCR_EVENT
    case PcrAllocate(_, _, _, _) => CC_PCR_ALLOCATE
    case NvDefineSpace(_, _, _, _, _) => CC_NV_DEFINE_SPACE
    case SetPrimaryPolicy(_, _, _, _, _) => CC_SET_PRIMARY_POLICY
    case Load(_, _, _, _, _) => CC_LOAD
    case MakeCredential(_, _, _, _) => CC_MAKE_CREDENTIAL
    case PcrSetAuthPolicy(_, _, _, _, _, _) => CC_PCR_SET_AUTH_POLICY
    case PcrRead(_, _) => CC_PCR_READ
  }

  /** The same by number. */
  lemma CodesByKind(m: Message)
    ensures m.GetRandom? ==> OwnCode(m) == 0x17B
    ensures m.Create? ==> OwnCode(m) == 0x153
    ensures m.CreatePrimary? ==> OwnCode(m) == 0x131
    ensures m.StartAuthSession? ==> OwnCode(m) == 0x176
    ensures m.RsaDecrypt? ==> OwnCode(m) == 0x159
    ensures m.Clear? ==> OwnCode(m) == 0x126
    ensures m.RsaEncrypt? ==> OwnCode(m) == 0x174
    ensures m.PcrEvent? ==> OwnCode(m) == 0x13C
    ensures m.PcrAllocate? ==> OwnCode(m) == 0x12B
    ensures m.NvDefineSpace? ==> OwnCode(m) == 0x12A
    ensures m.SetPrimaryPolicy? ==> OwnCode(m) == 0x12E
    ensures m.Load? ==> OwnCode(m) == 0x157
    ensures m.MakeCredential? ==> OwnCode(m) == 0x168
    ensures m.PcrSetAuthPolicy? ==> OwnCode(m) == 0x12C
    ensures m.PcrRead? ==> OwnCode(m) == 0x17E
  {
  }

  /** A message has sessions exactly if it has a field for them. */
  lemma SessionsAreAField(m: Message)
    requires !m.NotSet?
    ensures HasSessions(m) <==> exists i :: 0 <= i < |Body(m)| && Body(m)[i].Sessions?
    ensures Normalized(m) ==> m.header.tag == if HasSessions(m) then 0x8002 else 0x8001
  {
    if HasSessions(m) {
      assert Body(m)[1].Sessions?;
    }
  }

  /** What the post-processors make of a header: the kind's own code, and a tag that says whether it has sessions. */
  predicate Normalized(m: Message) {
    m.NotSet?
    || (m.header.commandCode == OwnCode(m) && m.header.tag == if HasSessions(m) then ST_SESSIONS else ST_NO_SESSIONS)
  }

  /** How many of a message's fields are handles; they come first. */
  function HandlesOf(m: Message): (n: nat)
    requires !m.NotSet?
    ensures n <= |Body(m)| && forall i | 0 <= i < n :: Body(m)[i].Uint32? || Body(m)[i].EnumUint32?
    ensures HasSessions(m) ==> n == 1
  {
    if m.StartAuthSession? then 2 else if m.GetRandom? || m.PcrRead? then 0 else 1
  }

  /**
    The layer's table agrees with the messages: on how many handles there are, on
    who has sessions, and on who answers with a new object's handle.
   */
  lemma TableFitsMessages(m: Message)
    requires !m.NotSet?
    ensures var code := OwnCode(m);
            && (Known(code) ==> HandleCount(code) == HandlesOf(m) && (AuthHandleCount(code) != 0 <==> HasSessions(m)))
            && (Known(code) && HasSessions(m) <==>
                m.Clear? || m.CreatePrimary? || m.Create? || m.Load? || m.RsaDecrypt? || m.NvDefineSpace?)
            && (Loads(code) ==> MakesObject(code) && Known(code) && OutHandleCount(code) == 1)
  {
  }

  /**
    Every marshalled command is a frame. One with sessions is the encoding of the
    abstract command, so its authorization area is exactly the sessions that were
    marshalled, whatever they are and however many. If the message goes by its own
    code, that is where the layer looks.
   */
  lemma MarshalledLayout(m: Message)
    requires CommandEncoding(m).Some?
    ensures var out := CommandEncoding(m).value;
            && 10 <= |out| <= MAX_BUFFER && Framed(out, |out| + HEADROOM)
            && (HasSessions(m) ==>
                  && AsCommand(m).WellFormed() && out == EncodeCommand(AsCommand(m))
                  && SA.FindAuthArea(out, 1) == Some(SA.AuthArea(14, 18, |EncodeEntries(SessionEntries(m.sessions))|))
                  && out[18..18 + |EncodeEntries(SessionEntries(m.sessions))|]
                     == EncodeEntries(SessionEntries(m.sessions)))
            && (HasSessions(m) && Read32(out, 6) == OwnCode(m) && Known(OwnCode(m)) ==>
                  SA.FindAuthArea(out, HandleCount(Read32(out, 6)))
                     == Some(SA.AuthArea(14, 18, |EncodeEntries(SessionEntries(m.sessions))|)))
  {
    hide Be16, Be32, Body, Header, EncodeEntries, SessionEntries, FieldsEncoding;
    var out := CommandEncoding(m).value;
    var tag, code := m.header.tag % 0x1_0000, m.header.commandCode % 0x1_0000_0000;
    assert out[..10] == Header(tag, |out|, code);
    HeaderFields(out, tag, |out|, code);
    TableFitsMessages(m);
    if HasSessions(m) {
      var c := AsCommand(m);
      ParamsEncoded(m);
      OneHandle(HandleOf(m));
      Regrouped(Header(tag, |out|, code), Be32(HandleOf(m)), Sized(EncodeEntries(c.auth)), c.params);
      assert out == EncodeCommand(c);
      SA.AreaIsWhereParsed(c);
      CommandFields(c);
    }
  }

  lemma OneHandle(h: u32)
    ensures HandleBytes([h]) == Be32(h)
  {
    hide Be32;
    assert HandleBytes([h]) == Be32(h) + HandleBytes([h][1..]);
  }

  lemma Regrouped(a: bytes, b: bytes, c: bytes, d: bytes)
    ensures a + (b + c + d) == a + b + c + d
  {
  }

  /**
    From message to wire: a command for the layer's session, alone in its area, is
    always patched (the headroom suffices), into the authorized command.
   */
  lemma MarshalThenPatch(crypto: Crypto, l: Layer, m: Message)
    requires CommandEncoding(m).Some? && HasSessions(m)
    requires l.initialized && l.digestSize != 0 && m.header.tag % 0x1_0000 == ST_SESSIONS
    requires var code := m.header.commandCode % 0x1_0000_0000; Known(code) && HandleCount(code) == 1
    requires |m.sessions| == 1 && m.sessions[0].handle == l.handle
    requires NamesOf(l.names, [HandleOf(m)]).Some?
    ensures var out := CommandEncoding(m).value;
            Patched(crypto, l, out, |out| + HEADROOM) == EncodeCommand(Authorized(crypto, l, AsCommand(m)))
  {
    hide Be16, Be32, Body, EncodeEntries, FieldsEncoding, NamesOf, ParseEntries;
    var out := CommandEncoding(m).value;
    MarshalledLayout(m);
    CommandFields(AsCommand(m));
    ParseCommandOfEncode(AsCommand(m));
    HeadroomSuffices(crypto, l, out, |out| + HEADROOM);
  }

  // ---------------------------------------------------------------------------
  // The loop
  // ---------------------------------------------------------------------------

  /** What is sent for each message and what state the layer is left in. */
  datatype Outcome = Outcome(layer: Layer, sent: seq<bytes>)

  /** A TPM as a function from everything sent so far to the latest response. */
  type Tpm = seq<bytes> -> bytes

  function Last(sent: seq<bytes>): bytes
    requires sent != []
  {
    sent[|sent| - 1]
  }

  /** Messages that do not marshal are skipped. */
  function OneMessage(crypto: Crypto, tpm: Tpm, o: Outcome, m: Message): Outcome {
    match CommandEncoding(m)
    case None => o
    case Some(cmd) =>
      var sent := o.sent + [Patched(crypto, o.layer, cmd, |cmd| + HEADROOM)];
      Outcome(AfterResponse(AfterCommand(o.layer, cmd, |cmd| + HEADROOM), tpm(sent)), sent)
  }

  function AllMessages(crypto: Crypto, tpm: Tpm, ms: seq<Message>): Outcome {
    if |ms| == 0 then Outcome(RESET, [])
    else OneMessage(crypto, tpm, AllMessages(crypto, tpm, ms[..|ms| - 1]), ms[|ms| - 1])
  }

  /** One turn of the loop. */
  method ProcessMessage(session: SA.SessionState, tpm: Tpm, sent: seq<bytes>, m: Message) returns (sent': seq<bytes>)
    requires session.Valid()
    modifies session.Repr
    ensures session.Valid()
    ensures Outcome(session.Abs(), sent') == OneMessage(session.crypto, tpm, Outcome(old(session.Abs()), sent), m)
  {
    hide CommandEncoding, Patched, AfterCommand, AfterResponse, Overwrite, Names.Bounded, EncodeCommand,
         Target;
    var ok, cmd := MarshalCommand(m);
    if !ok {
      return sent;
    }
    var buffer := Resized(cmd, |cmd| + HEADROOM);
    var size := session.PatchCommand(buffer, |cmd|, buffer.Length);
    sent' := sent + [buffer[..size]];
    NothingEmptyIsSent(session.crypto, old(session.Abs()), cmd, |cmd| + HEADROOM);
    ExecuteCommandBuffer(session, tpm, size, sent');
  }

  /** Sends the last command and processes the response; an empty command is not sent. */
  method ExecuteCommandBuffer(session: SA.SessionState, tpm: Tpm, size: nat, sent: seq<bytes>)
    requires session.Valid()
    modifies session.Repr
    ensures session.Valid()
    ensures session.Abs() == if size == 0 then old(session.Abs()) else AfterResponse(old(session.Abs()), tpm(sent))
  {
    hide AfterResponse, Names.Bounded;
    if size == 0 {
      return;
    }
    var response := Resized(tpm(sent), |tpm(sent)|);
    assert response[..response.Length] == tpm(sent);
    session.ProcessResponse(response, response.Length);
  }

  /** The executor's guard against empty buffers never skips a command. */
  lemma NothingEmptyIsSent(crypto: Crypto, l: Layer, cmd: bytes, capacity: nat)
    requires 10 <= |cmd|
    ensures 10 <= |Patched(crypto, l, cmd, capacity)|
  {
  }

  /** The body of DEFINE_PROTO_FUZZER, from the reset to the last response. */
  method RunSequence(crypto: Crypto, tpm: Tpm, messages: seq<Message>)
    returns (session: SA.SessionState, sent: seq<bytes>)
    ensures session.Valid() && fresh(session)
    ensures sent == AllMessages(crypto, tpm, messages).sent
    ensures session.Abs() == AllMessages(crypto, tpm, messages).layer
  {
    hide OneMessage;
    session := new SA.SessionState(crypto);
    session.Reset();
    sent := [];
    for i := 0 to |messages|
      invariant session.Valid() && fresh(session.Repr) && session.crypto == crypto
      invariant Outcome(session.Abs(), sent) == AllMessages(crypto, tpm, messages[..i])
    {
      assert messages[..i + 1][..i] == messages[..i];
      sent := ProcessMessage(session, tpm, sent, messages[i]);
    }
    assert messages[..|messages|] == messages;
  }

  /** A buffer that starts with data and is zero after it. */
  method Resized(data: bytes, size: nat) returns (buf: array<byte>)
    requires |data| <= size
    ensures fresh(buf) && buf.Length == size && buf[..|data|] == data
  {
    buf := new byte[size](_ => 0);
    OverwriteFront(buf[..], data);
    Memcpy(buf, 0, data);
    assert buf[..|data|] == buf[..][..|data|];
  }

  // ---------------------------------------------------------------------------
  // The loop against a peer
  // ---------------------------------------------------------------------------

  /** The peer's moves, like its responses, as a function of everything sent so far. */
  type Moves = seq<bytes> -> Move

  /** The exchanges a run of the loop consists of. */
  function Exchanges(crypto: Crypto, tpm: Tpm, moves: Moves, ms: seq<Message>): seq<Exchange> {
    if |ms| == 0 then []
    else
      var past, m := ms[..|ms| - 1], ms[|ms| - 1];
      match CommandEncoding(m)
      case None => Exchanges(crypto, tpm, moves, past)
      case Some(cmd) =>
        var sent := AllMessages(crypto, tpm, ms).sent;
        Exchanges(crypto, tpm, moves, past)
        + [Exchange(cmd, HandlesOf(m), |cmd| + HEADROOM, tpm(sent), moves(sent))]
  }

  lemma {:induction false} LoopIsExchanges(crypto: Crypto, tpm: Tpm, moves: Moves, ms: seq<Message>)
    ensures LayerAfter(Exchanges(crypto, tpm, moves, ms)) == AllMessages(crypto, tpm, ms).layer
  {
    hide CommandEncoding, Patched, AfterCommand, AfterResponse, LayerAfter;
    if |ms| == 0 {
      NoExchanges();
    } else {
      var past, m := ms[..|ms| - 1], ms[|ms| - 1];
      LoopIsExchanges(crypto, tpm, moves, past);
      if CommandEncoding(m).Some? {
        EncodedIsSet(m);
        var cmd, sent := CommandEncoding(m).value, AllMessages(crypto, tpm, ms).sent;
        AnotherExchange(Exchanges(crypto, tpm, moves, past),
                        Exchange(cmd, HandlesOf(m), |cmd| + HEADROOM, tpm(sent), moves(sent)));
      }
    }
  }

  lemma NoExchanges()
    ensures LayerAfter([]) == RESET
  {
  }

  lemma AnotherExchange(xs: seq<Exchange>, x: Exchange)
    ensures LayerAfter(xs + [x]) == Exchanged(LayerAfter(xs), x)
  {
    assert (xs + [x])[..|xs|] == xs;
  }

  lemma EncodedIsSet(m: Message)
    requires CommandEncoding(m).Some?
    ensures !m.NotSet?
  {
  }

  /**
    What the loop sends for a message: nothing if it does not marshal, else, as the
    last exchange of the run has it, the marshalled command as the layer patches it
    after all earlier exchanges.
   */
  lemma LoopSends(crypto: Crypto, tpm: Tpm, moves: Moves, ms: seq<Message>, m: Message)
    ensures var before, xs := AllMessages(crypto, tpm, ms).sent, Exchanges(crypto, tpm, moves, ms);
            var after, ys := AllMessages(crypto, tpm, ms + [m]).sent, Exchanges(crypto, tpm, moves, ms + [m]);
            if CommandEncoding(m).None? then after == before && ys == xs
            else
              && |ys| == |xs| + 1 && ys[..|xs|] == xs && ys[|xs|].cmd == CommandEncoding(m).value
              && ys[|xs|].capacity == |ys[|xs|].cmd| + 64 && ys[|xs|].resp == tpm(after)
              && after == before + [SentIn(crypto, LayerAfter(xs), ys[|xs|])]
  {
    hide CommandEncoding, Patched, AfterCommand, AfterResponse;
    assert (ms + [m])[..|ms|] == ms && (ms + [m])[|ms|] == m;
    LoopIsExchanges(crypto, tpm, moves, ms);
  }

  /** What is sent last. */
  lemma LastSent(crypto: Crypto, tpm: Tpm, moves: Moves, ms: seq<Message>, m: Message)
    requires CommandEncoding(m).Some?
    ensures AllMessages(crypto, tpm, ms + [m]).sent != []
    ensures var cmd := CommandEncoding(m).value;
            Last(AllMessages(crypto, tpm, ms + [m]).sent)
            == Patched(crypto, AllMessages(crypto, tpm, ms).layer, cmd, |cmd| + HEADROOM)
  {
    hide CommandEncoding, Patched, AllMessages, Exchanges, LayerAfter;
    LoopSends(crypto, tpm, moves, ms, m);
    LoopIsExchanges(crypto, tpm, moves, ms);
  }

  /** The whole list that is sent: every command of the run, as patched at its time. */
  lemma {:induction false} LoopSendsAll(crypto: Crypto, tpm: Tpm, moves: Moves, ms: seq<Message>)
    ensures var sent, xs := AllMessages(crypto, tpm, ms).sent, Exchanges(crypto, tpm, moves, ms);
            |sent| == |xs| && forall i | 0 <= i < |xs| :: sent[i] == SentIn(crypto, LayerAfter(xs[..i]), xs[i])
  {
    hide CommandEncoding, SentIn, LayerAfter, AllMessages, Exchanges;
    if |ms| == 0 {
      NothingSent(crypto, tpm, moves);
    } else {
      var past, m := ms[..|ms| - 1], ms[|ms| - 1];
      assert ms == past + [m];
      LoopSendsAll(crypto, tpm, moves, past);
      LoopSends(crypto, tpm, moves, past, m);
      var xs, ys := Exchanges(crypto, tpm, moves, past), Exchanges(crypto, tpm, moves, ms);
      if CommandEncoding(m).Some? {
        assert forall i | 0 <= i <= |xs| :: ys[..i] == xs[..i];
        assert xs[..|xs|] == xs;
      }
    }
  }

  lemma NothingSent(crypto: Crypto, tpm: Tpm, moves: Moves)
    ensures AllMessages(crypto, tpm, []).sent == [] && Exchanges(crypto, tpm, moves, []) == []
    ensures AllMessages(crypto, tpm, []).layer == RESET
  {
  }

  /**
    From message to wire: what the loop sends for a message of the layer's session,
    alone in its area, is the authorized command.
   */
  lemma LoopAuthorizes(crypto: Crypto, tpm: Tpm, moves: Moves, ms: seq<Message>, m: Message)
    requires CommandEncoding(m).Some? && HasSessions(m) && m.header.tag % 0x1_0000 == 0x8002
    requires var l := AllMessages(crypto, tpm, ms).layer;
             && l.initialized && l.digestSize != 0 && |m.sessions| == 1 && m.sessions[0].handle == l.handle
             && NamesOf(l.names, [HandleOf(m)]).Some?
    requires var code := m.header.commandCode % 0x1_0000_0000; Known(code) && HandleCount(code) == 1
    ensures var l := AllMessages(crypto, tpm, ms).layer;
            AllMessages(crypto, tpm, ms + [m]).sent
            == AllMessages(crypto, tpm, ms).sent + [EncodeCommand(Authorized(crypto, l, AsCommand(m)))]
  {
    hide CommandEncoding, NamesOf, AsCommand, HandleOf, EncodeCommand, Patched, Known, AllMessages, Exchanges,
         LayerAfter, Authorized, HasSessions, HandleCount;
    LoopSends(crypto, tpm, moves, ms, m);
    LoopIsExchanges(crypto, tpm, moves, ms);
    MarshalThenPatch(crypto, AllMessages(crypto, tpm, ms).layer, m);
  }

  // ---------------------------------------------------------------------------
  // Which messages are safe to send
  // ---------------------------------------------------------------------------

  function SessionsOf(m: Message): seq<u32>
    requires !m.NotSet?
  {
    if HasSessions(m) then HandlesIn(SessionEntries(m.sessions)) else []
  }

  /** A normalized message's code and sessions are those of its bytes. */
  lemma MessageOnWire(m: Message)
    requires CommandEncoding(m).Some? && Normalized(m)
    ensures !m.NotSet? && 10 <= |CommandEncoding(m).value|
    ensures var out := CommandEncoding(m).value;
            && Read32(out, 6) == OwnCode(m) && AreaSessions(out, HandlesOf(m)) == SessionsOf(m)
  {
    hide Be16, Be32, Read16, Read32, Body, Header, EncodeEntries, SessionEntries, FieldsEncoding, ParseCommand,
         EncodeCommand;
    var out := CommandEncoding(m).value;
    EncodedIsSet(m);
    var tag, code := m.header.tag % 0x1_0000, m.header.commandCode % 0x1_0000_0000;
    assert out[..10] == Header(tag, |out|, code);
    HeaderFields(out, tag, |out|, code);
    if HasSessions(m) {
      MarshalledLayout(m);
      ParseCommandOfEncode(AsCommand(m));
    }
  }

  /**
    The condition on a message: if one of its sessions is the layer's, or the layer
    follows its kind and its first session is a live one, then the layer follows
    its kind and its first session is the layer's.
   */
  predicate MessageInStep(l: Layer, p: Peer, m: Message)
    requires !m.NotSet?
  {
    var sessions := SessionsOf(m);
    l.handle in sessions || (Follows(OwnCode(m)) && |sessions| != 0 && sessions[0] in p.sessions) ==>
      Follows(OwnCode(m)) && sessions[0] == l.handle
  }

  function AsOutgoing(m: Message): Outgoing
    requires CommandEncoding(m).Some?
  {
    EncodedIsSet(m);
    Outgoing(CommandEncoding(m).value, HandlesOf(m), |CommandEncoding(m).value| + HEADROOM)
  }

  /** No normalized message loads an object unreported, so all of them keep Names. */
  lemma MessageKeepsNames(l: Layer, p: Peer, m: Message)
    requires CommandEncoding(m).Some? && Normalized(m)
    ensures Sendable(AsOutgoing(m)) && CommandKeepsNames(l, p, CommandEncoding(m).value, AsOutgoing(m).handleCount)
  {
    hide Read16, Read32, CommandEncoding, Body, Known, Loads, CanSucceed, OwnCode;
    MessageOnWire(m);
    MarshalledLayout(m);
    TableFitsMessages(m);
  }

  /**
    Whatever an orderly TPM answers, lockstep is kept if and only if the message is in
    step, or the session is gone.
   */
  lemma MessageKeepsLockstepExactly(crypto: Crypto, l: Layer, tracked: nat, p: Peer, m: Message)
    requires InLockstep(l, tracked, p) && CommandEncoding(m).Some? && Normalized(m)
    ensures !m.NotSet? && Sendable(AsOutgoing(m))
    ensures (forall x | OrderlyAnswer(crypto, l, p, AsOutgoing(m), x) ::
               InLockstep(Exchanged(l, x), Tracked(l, tracked, p, x), x.move.after))
            <==> (Held(l, tracked, p) ==> MessageInStep(l, p, m))
  {
    hide CommandEncoding, Sendable, OrderlyAnswer, InLockstep, Exchanged, Tracked, Held, AreaSessions, Follows,
         Normalized, CommandKeepsNames, SessionsOf, OwnCode;
    MessageOnWire(m);
    MessageKeepsNames(l, p, m);
    LockstepKeptExactly(crypto, l, tracked, p, AsOutgoing(m));
  }

  lemma {:induction false} LoopKeepsNames(crypto: Crypto, tpm: Tpm, moves: Moves, start: Peer, ms: seq<Message>)
    requires forall m | m in ms :: Normalized(m)
    ensures KeepsNames(start, Exchanges(crypto, tpm, moves, ms))
  {
    hide CommandEncoding, Patched, AfterCommand, AfterResponse, CommandKeepsNames, Normalized, Sendable;
    if |ms| != 0 {
      var past, m := ms[..|ms| - 1], ms[|ms| - 1];
      LoopKeepsNames(crypto, tpm, moves, start, past);
      var xs := Exchanges(crypto, tpm, moves, ms);
      if CommandEncoding(m).Some? {
        MessageOnWire(m);
        assert xs[..|xs| - 1] == Exchanges(crypto, tpm, moves, past);
        MessageKeepsNames(LayerAfter(xs[..|xs| - 1]), PeerAfter(start, xs[..|xs| - 1]), m);
      }
    }
  }

  /**
    Fuzzing any messages against an orderly TPM, the layer ends in lockstep with it as
    long as the two are in step on nonces, and the HMAC of the command that is sent for
    a further message verifies.
   */
  lemma LoopStaysInLockstep(crypto: Crypto, tpm: Tpm, moves: Moves, start: Peer, ms: seq<Message>, m: Message)
    requires SerialsBelow(start) && GoodRun(crypto, start, Exchanges(crypto, tpm, moves, ms))
    requires forall m | m in ms :: Normalized(m)
    ensures CommandEncoding(m).Some? ==> AllMessages(crypto, tpm, ms + [m]).sent != []
    ensures var xs := Exchanges(crypto, tpm, moves, ms);
            var l, tracked, p := AllMessages(crypto, tpm, ms).layer, TrackedAfter(start, xs), PeerAfter(start, xs);
            && InLockstep(l, tracked, p)
            && (CommandEncoding(m).Some? ==>
                  var cmd := CommandEncoding(m).value;
                  Target(l, cmd).Some? && Held(l, tracked, p) && PeerNames(p, Target(l, cmd).value.handles).Some?
                  && AuthValue(p, Target(l, cmd).value) == [] ==>
                    HmacVerifies(crypto, p, Last(AllMessages(crypto, tpm, ms + [m]).sent)))
  {
    hide CommandEncoding, Patched, HmacVerifies, PeerNames, InLockstep, Target, GoodRun, KeepsNames,
         Normalized, AllMessages, Exchanges, LayerAfter, PeerAfter, TrackedAfter, AuthValue, Held, Last;
    var xs := Exchanges(crypto, tpm, moves, ms);
    LoopIsExchanges(crypto, tpm, moves, ms);
    LoopKeepsNames(crypto, tpm, moves, start, ms);
    RunKeepsLockstep(crypto, start, xs);
    if CommandEncoding(m).Some? {
      LastSent(crypto, tpm, moves, ms, m);
      var l, cmd := LayerAfter(xs), CommandEncoding(m).value;
      MarshalledLayout(m);
      HeadroomSuffices(crypto, l, cmd, |cmd| + HEADROOM);
      if Target(l, cmd).Some? && Held(l, TrackedAfter(start, xs), PeerAfter(start, xs))
         && PeerNames(PeerAfter(start, xs), Target(l, cmd).value.handles).Some?
         && AuthValue(PeerAfter(start, xs), Target(l, cmd).value) == []
      {
        PatchedHmacIsExpected(crypto, l, TrackedAfter(start, xs), PeerAfter(start, xs), cmd, |cmd| + HEADROOM);
      }
    }
  }
}
