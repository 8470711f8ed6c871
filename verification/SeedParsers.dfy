/**
  The seed generator's parsers, which turn command bytes back into protobuf
  messages (tools/seed-generation/tpm2_commands.py). Slices clamp and integers are
  read from whatever bytes are left; a parser has no result when Python raises.
 */
module SeedParsers {
  import opened Bytes
  import opened SeedTypes

  // ---------------------------------------------------------------------------
  // Reading at an offset
  // ---------------------------------------------------------------------------

  /** int.from_bytes(b[off : off + n], "big"). */
  function IntAt(b: bytes, off: nat, n: nat): nat {
    FromBytes(Slice(b, off, off + n))
  }

  /** At off, the bytes are x followed by rest. */
  predicate At(b: bytes, off: nat, x: bytes, rest: bytes) {
    off <= |b| && b[off..] == x + rest
  }

  /** The next part starts where this one ends, and slicing out this one gives it back. */
  lemma Advance(b: bytes, off: nat, x: bytes, rest: bytes)
    requires At(b, off, x, rest)
    ensures off + |x| <= |b| && Slice(b, off, off + |x|) == x && b[off + |x|..] == rest
    ensures |b| == off + |x| + |rest|
  {
    var t := b[off..];
    assert t[..|x|] == x && t[|x|..] == rest;
    assert b[off + |x|..] == t[|x|..];
    assert b[off..off + |x|] == t[..|x|];
  }

  /** An integer written by to_bytes is read back, and the offset moves past it. */
  lemma IntThere(b: bytes, off: nat, v: int, n: nat, rest: bytes)
    requires ToBytes(v, n).Some? && At(b, off, ToBytes(v, n).value, rest)
    ensures IntAt(b, off, n) == v && off + n <= |b| && b[off + n..] == rest
  {
    Advance(b, off, ToBytes(v, n).value, rest);
    FromBytesOfBigEndian(v, n);
  }

  /** A single byte. */
  lemma ByteThere(b: bytes, off: nat, v: int, rest: bytes)
    requires ToBytes(v, 1).Some? && At(b, off, ToBytes(v, 1).value, rest)
    ensures off < |b| && b[off] == v && b[off + 1..] == rest
  {
    ToBytesStores(v);
    Advance(b, off, [v], rest);
    assert b[off..][0] == ([v] + rest)[0];
  }

  /** _parse_tpm2b: the whole field, size included, and the offset after it. */
  datatype Tpm2bSlice = Tpm2bSlice(field: bytes, end: nat)

  function ParseTpm2b(b: bytes, off: nat): Tpm2bSlice {
    var size := IntAt(b, off, 2);
    Tpm2bSlice(Slice(b, off, off + 2 + size), off + 2 + size)
  }

  /** A TPM2B written at off is cut out whole; its parts can also be read one by one. */
  lemma Tpm2bThere(b: bytes, off: nat, data: bytes, rest: bytes)
    requires Tpm2bBytes(data).Some? && At(b, off, Tpm2bBytes(data).value, rest)
    ensures var end := off + 2 + |data|;
            && ParseTpm2b(b, off) == Tpm2bSlice(Tpm2bBytes(data).value, end)
            && end <= |b| && b[end..] == rest
            && IntAt(b, off, 2) == |data| && Slice(b, off + 2, end) == data
    ensures Tpm2bBytes(data).value[2..] == data && |Tpm2bBytes(data).value| == 2 + |data|
  {
    hide IntAt, Slice;
    var size := ToBytes(|data|, 2).value;
    assert size + data + rest == size + (data + rest);
    IntThere(b, off, |data|, 2, data + rest);
    Advance(b, off + 2, data, rest);
    Advance(b, off, size + data, rest);
  }

  // ---------------------------------------------------------------------------
  // Sessions
  // ---------------------------------------------------------------------------

  datatype SeedSession =
    SeedSession(handle: nat, nonceSize: nat, nonce: bytes, attributes: byte, hmacSize: nat, hmac: bytes)

  datatype SessionStep = SessionStep(session: SeedSession, next: nat)

  /** One turn of the loop in _proto_sessions; an index past the end raises. */
  function SessionAt(b: bytes, off: nat): Option<SessionStep> {
    var handle := IntAt(b, off, 4);
    var nonceSize := IntAt(b, off + 4, 2);
    var nonce := Slice(b, off + 6, off + 6 + nonceSize);
    var attrsOff := off + 6 + nonceSize;
    if attrsOff >= |b| then None
    else
      var hmacSize := IntAt(b, attrsOff + 1, 2);
      var hmac := Slice(b, attrsOff + 3, attrsOff + 3 + hmacSize);
      Some(SessionStep(SeedSession(handle, nonceSize, nonce, b[attrsOff], hmacSize, hmac), attrsOff + 3 + hmacSize))
  }

  /** The sessions from an offset on. */
  function SessionsFrom(b: bytes, off: nat): Option<seq<SeedSession>>
    decreases |b| - off
  {
    if off >= |b| then Some([])
    else
      var step :- SessionAt(b, off);
      var others :- SessionsFrom(b, step.next);
      Some([step.session] + others)
  }

  /** _proto_sessions: skips the size and appends one session a turn. */
  method ProtoSessions(authBytes: bytes) returns (r: Option<seq<SeedSession>>)
    ensures r == SessionsFrom(authBytes, 4)
    ensures forall cs: seq<AuthCommand> | AuthAreaBytes(cs) == Some(authBytes) :: r == Some(SeedSessions(cs))
  {
    hide IntAt, Slice, SeedSessions, AuthAreaBytes;
    var sessions := [];
    var off := 4;
    assert SessionsFrom(authBytes, off).Some? ==>
        [] + SessionsFrom(authBytes, off).value == SessionsFrom(authBytes, off).value;
    while off < |authBytes|
      invariant SessionsFrom(authBytes, 4) ==
                if SessionsFrom(authBytes, off).None? then None
                else Some(sessions + SessionsFrom(authBytes, off).value)
      decreases |authBytes| - off
    {
      var handle := IntAt(authBytes, off, 4);
      var nonceOff := off + 4;
      var nonceSize := IntAt(authBytes, nonceOff, 2);
      nonceOff := nonceOff + 2;
      var nonce := Slice(authBytes, nonceOff, nonceOff + nonceSize);
      var attrsOff := nonceOff + nonceSize;
      if attrsOff >= |authBytes| {
        SessionsOfArea(authBytes);
        return None;
      }
      var attributes := authBytes[attrsOff];
      var hmacOff := attrsOff + 1;
      var hmacSize := IntAt(authBytes, hmacOff, 2);
      hmacOff := hmacOff + 2;
      var hmac := Slice(authBytes, hmacOff, hmacOff + hmacSize);
      ghost var step := SessionAt(authBytes, off).value;
      ghost var others := SessionsFrom(authBytes, step.next);
      assert others.Some? ==> sessions + ([step.session] + others.value) == sessions + [step.session] + others.value;
      sessions := sessions + [SeedSession(handle, nonceSize, nonce, attributes, hmacSize, hmac)];
      off := hmacOff + hmacSize;
    }
    assert sessions + [] == sessions;
    SessionsOfArea(authBytes);
    r := Some(sessions);
  }

  /** The message a session is in. */
  function SeedSessionOf(c: AuthCommand): SeedSession
    requires AuthCommandBytes(c).Some?
  {
    ToBytesStores(c.attributes);
    SeedSession(c.sessionHandle, |c.nonce|, c.nonce, c.attributes, |c.hmac|, c.hmac)
  }

  function SeedSessions(cs: seq<AuthCommand>): (r: seq<SeedSession>)
    requires AuthCommandsBytes(cs).Some?
    ensures |r| == |cs|
  {
    if |cs| == 0 then [] else [SeedSessionOf(cs[0])] + SeedSessions(cs[1..])
  }

  /** One turn consumes exactly one encoded session, of at least 9 bytes. */
  lemma SessionThere(b: bytes, off: nat, c: AuthCommand, rest: bytes)
    requires AuthCommandBytes(c).Some? && At(b, off, AuthCommandBytes(c).value, rest)
    ensures SessionAt(b, off) == Some(SessionStep(SeedSessionOf(c), off + |AuthCommandBytes(c).value|))
    ensures 9 <= |AuthCommandBytes(c).value| && b[off + |AuthCommandBytes(c).value|..] == rest
  {
    hide IntAt, Slice, ToBytes, Tpm2bBytes, SeedSessionOf;
    var sh, nonce := ToBytes(c.sessionHandle, 4).value, Tpm2bBytes(c.nonce).value;
    var attrs, hmac := ToBytes(c.attributes, 1).value, Tpm2bBytes(c.hmac).value;
    Regroup4(sh, nonce, attrs, hmac, rest);
    IntThere(b, off, c.sessionHandle, 4, nonce + (attrs + (hmac + rest)));
    Tpm2bThere(b, off + 4, c.nonce, attrs + (hmac + rest));
    ByteThere(b, off + 6 + |c.nonce|, c.attributes, hmac + rest);
    Tpm2bThere(b, off + 7 + |c.nonce|, c.hmac, rest);
    SessionFields(c);
  }

  lemma SessionFields(c: AuthCommand)
    requires AuthCommandBytes(c).Some?
    ensures |AuthCommandBytes(c).value| == 9 + |c.nonce| + |c.hmac|
    ensures 0 <= c.attributes < 0x100 && 0 <= c.sessionHandle
    ensures SeedSessionOf(c) == SeedSession(c.sessionHandle, |c.nonce|, c.nonce, c.attributes, |c.hmac|, c.hmac)
  {
    ToBytesStores(c.attributes);
  }

  lemma {:induction false} SessionsThere(b: bytes, off: nat, cs: seq<AuthCommand>)
    requires AuthCommandsBytes(cs).Some? && off <= |b| && b[off..] == AuthCommandsBytes(cs).value
    ensures SessionsFrom(b, off) == Some(SeedSessions(cs))
    decreases |cs|
  {
    hide SessionAt, AuthCommandBytes, SeedSessionOf;
    if |cs| != 0 {
      var first, others := AuthCommandBytes(cs[0]).value, AuthCommandsBytes(cs[1..]).value;
      SessionThere(b, off, cs[0], others);
      Advance(b, off, first, others);
      SessionsThere(b, off + |first|, cs[1..]);
    }
  }

  /** _proto_sessions inverts TPM_AUTH_AREA.to_bytes, for every list of sessions. */
  lemma SessionsInvert(cs: seq<AuthCommand>)
    requires AuthAreaBytes(cs).Some?
    ensures SessionsFrom(AuthAreaBytes(cs).value, 4) == Some(SeedSessions(cs))
  {
    hide SessionsFrom, AuthCommandsBytes, SeedSessions;
    var b := AuthAreaBytes(cs).value;
    assert b[4..] == AuthCommandsBytes(cs).value;
    SessionsThere(b, 4, cs);
  }

  /** An area that ends behind a session's nonce makes the parser raise. */
  lemma {:induction false} CutAreaRaises(b: bytes, off: nat, cs: seq<AuthCommand>, handle: int, nonce: bytes)
    requires AuthCommandsBytes(cs).Some? && ToBytes(handle, 4).Some? && Tpm2bBytes(nonce).Some? && off <= |b|
    requires b[off..] == AuthCommandsBytes(cs).value + (ToBytes(handle, 4).value + Tpm2bBytes(nonce).value)
    ensures SessionsFrom(b, off).None?
    decreases |cs|
  {
    hide SessionAt, AuthCommandBytes, ToBytes, Tpm2bBytes;
    var cut := ToBytes(handle, 4).value + Tpm2bBytes(nonce).value;
    if |cs| == 0 {
      assert b[off..] == cut;
      CutSessionRaises(b, off, handle, nonce);
    } else {
      var first, others := AuthCommandBytes(cs[0]).value, AuthCommandsBytes(cs[1..]).value;
      assert first + others + cut == first + (others + cut);
      SessionThere(b, off, cs[0], others + cut);
      Advance(b, off, first, others + cut);
      CutAreaRaises(b, off + |first|, cs[1..], handle, nonce);
    }
  }

  lemma CutSessionRaises(b: bytes, off: nat, handle: int, nonce: bytes)
    requires ToBytes(handle, 4).Some? && Tpm2bBytes(nonce).Some? && off <= |b|
    requires b[off..] == ToBytes(handle, 4).value + Tpm2bBytes(nonce).value
    ensures SessionAt(b, off).None? && off < |b|
  {
    hide IntAt, Slice, Tpm2bBytes;
    var h, n := ToBytes(handle, 4).value, Tpm2bBytes(nonce).value;
    assert n == n + [];
    IntThere(b, off, handle, 4, n);
    Tpm2bThere(b, off + 4, nonce, []);
  }

  lemma SessionsOfArea(b: bytes)
    ensures forall cs: seq<AuthCommand> | AuthAreaBytes(cs) == Some(b) :: SessionsFrom(b, 4) == Some(SeedSessions(cs))
  {
    hide SessionsFrom, SeedSessions;
    forall cs: seq<AuthCommand> | AuthAreaBytes(cs) == Some(b) ensures SessionsFrom(b, 4) == Some(SeedSessions(cs)) {
      SessionsInvert(cs);
    }
  }
}
