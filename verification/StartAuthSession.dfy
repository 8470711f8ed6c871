/** TPM2_StartAuthSession commands and their responses, and what the layer reads off them. */
module StartAuthSession {
  import opened Bytes
  import opened CommandLayout
  import opened PatchTheory
  import opened SessionLayer
  import opened Tpm2

  datatype StartAuth = StartAuth(
    tpmKey: u32, bind: u32, nonce: bytes, salt: bytes, sessionType: byte, symmetric: bytes, authHash: u16)
  {
    predicate WellFormed() {
      && |nonce| < 0x1_0000 && |salt| < 0x1_0000 && 2 <= |symmetric|
      && 18 + |AfterHandles(this)| < 0x1_0000_0000
    }

    /** No salt, no bound entity, an HMAC session over SHA-256: the session key is empty. */
    predicate Plain() {
      && tpmKey == RH_NULL && bind == RH_NULL && salt == [] && sessionType == SE_HMAC
      && authHash == ALG_SHA256
    }
  }

  /** Session type, symmetric definition, and hash. */
  function Tail(s: StartAuth): (b: bytes)
    ensures |b| == 3 + |s.symmetric|
  {
    [s.sessionType] + s.symmetric + Be16(s.authHash)
  }

  function AfterHandles(s: StartAuth): bytes {
    Tpm2b(s.nonce) + (Tpm2b(s.salt) + Tail(s))
  }

  function EncodeStartAuth(tag: u16, s: StartAuth): (b: bytes)
    ensures |b| == 18 + |AfterHandles(s)|
  {
    Header(tag, 18 + |AfterHandles(s)|, CC_START_AUTH_SESSION) + Be32(s.tpmKey) + Be32(s.bind) + AfterHandles(s)
  }

  /** A symmetric definition is 2 bytes when it is ALG_NULL, 4 for XOR with its hash, and 6 otherwise. */
  function SymmetricSize(b: bytes): (n: nat)
    requires 2 <= |b|
    ensures 2 <= n <= 6
  {
    var alg := Read16(b, 0);
    if alg == ALG_NULL then 2 else if alg == ALG_XOR then 4 else 6
  }

  /** The full left-to-right parse, with nothing left over. */
  function ParseStartAuth(cmd: bytes): Option<StartAuth> {
    if |cmd| < 18 || Read32(cmd, 2) != |cmd| || Read32(cmd, 6) != CC_START_AUTH_SESSION then None
    else
      var nonce :- TakeTpm2b(cmd[18..]);
      var salt :- TakeTpm2b(nonce.rest);
      var t := salt.rest;
      if |t| < 3 || |t| != 3 + SymmetricSize(t[1..]) then None
      else
        Some(StartAuth(Read32(cmd, 10), Read32(cmd, 14), nonce.payload, salt.payload, t[0],
                       t[1..|t| - 2], Read16(t, |t| - 2)))
  }

  lemma StartAuthFields(tag: u16, s: StartAuth)
    requires s.WellFormed()
    ensures var cmd := EncodeStartAuth(tag, s);
            && 27 <= |cmd| && Read16(cmd, 0) == tag && Read32(cmd, 2) == |cmd|
            && Read32(cmd, 6) == CC_START_AUTH_SESSION
            && Read32(cmd, 10) == s.tpmKey && Read32(cmd, 14) == s.bind
            && cmd[18..] == AfterHandles(s)
  {
    var cmd := EncodeStartAuth(tag, s);
    Parts4(Header(tag, |cmd|, CC_START_AUTH_SESSION), Be32(s.tpmKey), Be32(s.bind), AfterHandles(s));
    TwoHandles(cmd, tag, s.tpmKey, s.bind);
  }

  lemma TwoHandles(cmd: bytes, tag: u16, x: u32, y: u32)
    requires 18 <= |cmd| < 0x1_0000_0000 && cmd[..10] == Header(tag, |cmd|, CC_START_AUTH_SESSION)
    requires cmd[10..14] == Be32(x) && cmd[14..18] == Be32(y)
    ensures Read16(cmd, 0) == tag && Read32(cmd, 2) == |cmd| && Read32(cmd, 6) == CC_START_AUTH_SESSION
    ensures Read32(cmd, 10) == x && Read32(cmd, 14) == y
  {
    hide Be16, Be32, Read16, Read32;
    HeaderFields(cmd, tag, |cmd|, CC_START_AUTH_SESSION);
    Read32Stored(cmd, 10, x);
    Read32Stored(cmd, 14, y);
  }

  /** A 16-bit value can be read at the end of any longer buffer with the same end. */
  lemma ReadLast16(b: bytes, off: nat, t: bytes)
    requires off <= |b| && b[off..] == t && 2 <= |t|
    ensures Read16(b, |b| - 2) == Read16(t, |t| - 2)
  {
    assert t[|t| - 2] == b[|b| - 2] && t[|t| - 1] == b[|b| - 1];
  }

  /** Tail parts of a concatenation. */
  lemma DropFirst(b: bytes, off: nat, a: bytes, t: bytes)
    requires off <= |b| && b[off..] == a + t
    ensures off + |a| <= |b| && b[off + |a|..] == t
  {
    assert b[off + |a|..] == b[off..][|a|..];
  }

  lemma HashIsLast(tag: u16, s: StartAuth)
    requires s.WellFormed()
    ensures var cmd := EncodeStartAuth(tag, s); 27 <= |cmd| && Read16(cmd, |cmd| - 2) == s.authHash
  {
    var cmd := EncodeStartAuth(tag, s);
    StartAuthFields(tag, s);
    DropFirst(cmd, 18, Tpm2b(s.nonce), Tpm2b(s.salt) + Tail(s));
    DropFirst(cmd, 18 + |Tpm2b(s.nonce)|, Tpm2b(s.salt), Tail(s));
    ReadLast16(cmd, 18 + |Tpm2b(s.nonce)| + |Tpm2b(s.salt)|, Tail(s));
    TailFields(s);
  }

  lemma TailFields(s: StartAuth)
    requires 2 <= |s.symmetric|
    ensures var t := Tail(s);
            && t[0] == s.sessionType && t[1..|t| - 2] == s.symmetric && Read16(t, |t| - 2) == s.authHash
            && Read16(t[1..], 0) == Read16(s.symmetric, 0)
  {
    var t := Tail(s);
    Parts3([s.sessionType], s.symmetric, Be16(s.authHash));
    Read16Stored(t, |t| - 2, s.authHash);
    assert t[1..][0] == s.symmetric[0] && t[1..][1] == s.symmetric[1];
  }

  /** The full parse recovers every field of a command, whatever its symmetric definition. */
  lemma ParseStartAuthOfEncode(tag: u16, s: StartAuth)
    requires s.WellFormed()
    requires var alg := Read16(s.symmetric, 0);
             |s.symmetric| == if alg == 0x0010 then 2 else if alg == 0x000A then 4 else 6
    ensures ParseStartAuth(EncodeStartAuth(tag, s)) == Some(s)
  {
    StartAuthFields(tag, s);
    TakeTpm2bOfTpm2b(s.nonce, Tpm2b(s.salt) + Tail(s));
    TakeTpm2bOfTpm2b(s.salt, Tail(s));
    TailFields(s);
  }

  /**
    Reading the hash from the tail is as good as a full parse: whatever the
    symmetric field (even one the full parse does not know), and for all nonce and
    salt lengths, the layer finds the session compatible exactly when it is plain.
   */
  lemma CaptureIsFullParse(tag: u16, s: StartAuth)
    requires s.WellFormed()
    ensures OfferIn(EncodeStartAuth(tag, s)) == Some(Offer(s.authHash, s.Plain()))
  {
    hide Be16, Be32, Read16, Read32, TakeTpm2b, Tpm2b, EncodeStartAuth, Header;
    StartAuthFields(tag, s);
    HashIsLast(tag, s);
    TakeTpm2bOfTpm2b(s.nonce, Tpm2b(s.salt) + Tail(s));
    TakeTpm2bOfTpm2b(s.salt, Tail(s));
  }

  /** Whenever the full parse succeeds, the layer sees the same hash and the same verdict. */
  lemma CaptureAgreesWithParse(cmd: bytes)
    requires ParseStartAuth(cmd).Some?
    ensures var s := ParseStartAuth(cmd).value; OfferIn(cmd) == Some(Offer(s.authHash, s.Plain()))
  {
    hide Be16, Be32, SymmetricSize, TakeTpm2b;
    var nonce := TakeTpm2b(cmd[18..]).value;
    var salt := TakeTpm2b(nonce.rest).value;
    var t := salt.rest;
    DropFirst(cmd, 18, Tpm2b(nonce.payload), nonce.rest);
    DropFirst(cmd, 18 + |Tpm2b(nonce.payload)|, Tpm2b(salt.payload), t);
    ReadLast16(cmd, |cmd| - |t|, t);
  }

  /**
    What is captured, by offsets and numbers, on any bytes: nothing is offered if the
    command is too short or its fields do not fit; else the hash is in the last two
    bytes, and the offer is compatible if key and bind are 0x40000007, the salt is
    empty, the type is 0 and the hash is 0x000B.
   */
  lemma CaptureByOffsets(cmd: bytes)
    ensures var fits := 27 <= |cmd|
                        && 20 + Read16(cmd, 18) + 2 <= |cmd|
                        && 22 + Read16(cmd, 18) + Read16(cmd, 20 + Read16(cmd, 18)) < |cmd|;
            OfferIn(cmd) ==
            if !fits then None
            else
              var salt := 20 + Read16(cmd, 18);
              Some(Offer(Read16(cmd, |cmd| - 2),
                         && Read32(cmd, 10) == 0x4000_0007 && Read32(cmd, 14) == 0x4000_0007
                         && Read16(cmd, salt) == 0 && cmd[salt + 2] == 0 && Read16(cmd, |cmd| - 2) == 0x000B))
  {
    hide Read16, Read32, TakeTpm2b;
    if 27 <= |cmd| {
      TakeTpm2bAt(cmd, 18);
      if 20 + Read16(cmd, 18) <= |cmd| {
        TakeTpm2bAt(cmd, 20 + Read16(cmd, 18));
      }
    }
  }

  // ---------------------------------------------------------------------------
  // The response
  // ---------------------------------------------------------------------------

  function EncodeStartAuthResponse(handle: u32, nonce: bytes): bytes {
    Header(ST_NO_SESSIONS, 16 + |nonce|, RC_SUCCESS) + (Be32(handle) + Tpm2b(nonce))
  }

  lemma StartAuthResponseFields(handle: u32, nonce: bytes)
    requires |nonce| < 0x1_0000
    ensures var r := EncodeStartAuthResponse(handle, nonce);
            && 16 <= |r| && Read16(r, 0) == ST_NO_SESSIONS && Read32(r, 2) == |r|
            && Read32(r, 6) == RC_SUCCESS && Read32(r, 10) == handle
            && TakeTpm2b(r[14..]) == Some(Field(nonce, []))
  {
    hide Be16, Be32, Read16, Read32, TakeTpm2b;
    var r := EncodeStartAuthResponse(handle, nonce);
    HeaderFields(r, ST_NO_SESSIONS, 16 + |nonce|, RC_SUCCESS);
    assert r[10..14] == Be32(handle);
    Read32Stored(r, 10, handle);
    assert r[14..] == Tpm2b(nonce) + [];
    TakeTpm2bOfTpm2b(nonce, []);
  }
}
