/**
  The session layer on buffers: g_session as a class with fixed-size arrays, and
  commands rewritten in place (src/harness/session_auth.cc). Commands and
  responses are read through views of exactly their stated size, so no read can
  leave them.
 */
module SessionAuth {
  import opened AuthAreaPatching
  import opened Bytes
  import opened CommandAttributes
  import opened CommandLayout
  import opened Names
  import opened PatchTheory
  import opened SessionLayer
  import opened Tpm2

  // ---------------------------------------------------------------------------
  // Offsets into a command or response
  // ---------------------------------------------------------------------------

  /** Advances past a TPM2B field; 0 means that the field does not fit. */
  function SkipTpm2b(b: bytes, off: nat, end: nat): nat
    requires end <= |b|
  {
    if off + 2 > end then 0
    else if off + 2 + Read16(b, off) <= end then off + 2 + Read16(b, off)
    else 0
  }

  /** Skipping by offset is taking the field off the front, and 0 is never a real offset. */
  lemma SkipIsTake(b: bytes, off: nat, end: nat)
    requires off <= end <= |b|
    ensures SkipTpm2b(b, off, end) == 0 <==> TakeTpm2b(b[off..end]).None?
    ensures SkipTpm2b(b, off, end) != 0 ==>
              var next, field := SkipTpm2b(b, off, end), TakeTpm2b(b[off..end]).value;
              off + 2 <= next <= end && field.rest == b[next..end] && field.payload == b[off + 2..next]
  {
    hide TakeTpm2b;
    var t := b[..end];
    TakeTpm2bAt(t, off);
    assert t[off..] == b[off..end];
    if off + 2 <= end {
      assert t[off..off + 2] == b[off..off + 2];
      ReadSame16(t, off, b, off);
    }
  }

  datatype AuthArea = AuthArea(authSizeOff: nat, authOff: nat, authSize: nat)

  function FindAuthArea(cmd: bytes, handleCount: nat): Option<AuthArea> {
    var authSizeOff := 10 + 4 * handleCount;
    if authSizeOff + 4 > |cmd| then None
    else if authSizeOff + 4 + Read32(cmd, authSizeOff) > |cmd| then None
    else Some(AuthArea(authSizeOff, authSizeOff + 4, Read32(cmd, authSizeOff)))
  }

  /** The authorization area is found exactly where a parse of the command puts it. */
  lemma AreaIsWhereParsed(c: Command)
    requires c.WellFormed()
    ensures var n := |c.handles|;
            FindAuthArea(EncodeCommand(c), n) == Some(AuthArea(10 + 4 * n, 14 + 4 * n, |EncodeEntries(c.auth)|))
  {
    CommandFields(c);
  }

  /** The checks on the first entry, offset by offset, accept exactly the single-entry areas. */
  predicate EntryChecks(cmd: bytes, authOff: nat, end: nat)
    requires authOff <= end <= |cmd|
  {
    && authOff + 6 <= end
    && var nonceEnd := authOff + 6 + Read16(cmd, authOff + 4);
    && nonceEnd + 1 <= end && nonceEnd + 3 <= end
    && nonceEnd + 3 + Read16(cmd, nonceEnd + 1) == end
  }

  lemma EntryChecksAreSoleEntry(cmd: bytes, authOff: nat, end: nat)
    requires authOff <= end <= |cmd|
    ensures var area := cmd[authOff..end];
            && (EntryChecks(cmd, authOff, end) <==> IsSoleEntry(area))
            && (IsSoleEntry(area) ==>
                  var e := SoleEntry(area);
                  && e.handle == Read32(cmd, authOff) && |e.nonce| == Read16(cmd, authOff + 4)
                  && e.attributes == cmd[authOff + 6 + |e.nonce|]
                  && |e.hmac| == Read16(cmd, authOff + 7 + |e.nonce|))
  {
    hide Read16, Read32;
    var area := cmd[authOff..end];
    if 6 <= |area| {
      Inner(cmd, authOff, end, 0, 4);
      Inner(cmd, authOff, end, 4, 6);
      ReadSame32(area, 0, cmd, authOff);
      ReadSame16(area, 4, cmd, authOff + 4);
      var n := Read16(area, 4);
      if 9 + n <= |area| {
        Inner(cmd, authOff, end, 7 + n, 9 + n);
        ReadSame16(area, 7 + n, cmd, authOff + 7 + n);
      }
    }
  }

  /** What the target of patching is, found by offsets. */
  lemma TargetByOffsets(l: Layer, cmd: bytes)
    requires 10 <= |cmd| && Read32(cmd, 2) == |cmd| && Known(Read32(cmd, 6))
    requires Read32(cmd, 6) != CC_START_AUTH_SESSION && l.initialized && l.digestSize != 0
    requires Read16(cmd, 0) == ST_SESSIONS
    ensures var n := HandleCount(Read32(cmd, 6));
            var found := FindAuthArea(cmd, n);
            if found.None? then Target(l, cmd).None?
            else
              var a := found.value;
              var area := cmd[a.authOff..a.authOff + a.authSize];
              && (Target(l, cmd).Some? <==>
                    IsSoleEntry(area) && SoleEntry(area).handle == l.handle
                    && NamesOf(l.names, ReadHandles(cmd, 10, n)).Some?)
              && (Target(l, cmd).Some? ==>
                    Target(l, cmd).value == Command(ST_SESSIONS, Read32(cmd, 6), ReadHandles(cmd, 10, n),
                                                    [SoleEntry(area)], cmd[a.authOff + a.authSize..]))
  {
    hide Read16, Read32, ParseEntries, IsSoleEntry, SoleEntry, NamesOf, ReadHandles;
    var found := FindAuthArea(cmd, HandleCount(Read32(cmd, 6)));
    if found.Some? {
      SoleEntryIsParse(cmd[found.value.authOff..found.value.authOff + found.value.authSize]);
    }
  }

  // ---------------------------------------------------------------------------
  // Session state
  // ---------------------------------------------------------------------------

  class SessionState {
    const crypto: Crypto

    var initialized: bool
    var handle: u32
    var hashAlg: u16
    var digestSize: nat
    const nonceTpm: array<byte>
    var nonceTpmSize: nat
    const sessionKey: array<byte>
    var sessionKeySize: nat
    var lastCommandCode: u32
    const names: NameTable

    // Reactive StartAuthSession bookkeeping.
    var pendingStartAuthSession: bool
    var startAuthSessionCompatible: bool
    var startAuthSessionAuthHash: u16

    ghost const Repr: set<object> := {this, nonceTpm, sessionKey} + names.Repr

    ghost predicate Valid()
      reads Repr
    {
      && nonceTpm != sessionKey && {this, nonceTpm, sessionKey} !! names.Repr && names.Valid()
      && nonceTpm.Length == sessionKey.Length == MAX_DIGEST
      && nonceTpmSize <= MAX_DIGEST && sessionKeySize <= MAX_DIGEST
    }

    /** The state as a value: of the arrays, only the bytes in use. */
    ghost function Abs(): Layer
      requires Valid()
      reads Repr
    {
      Layer(initialized, handle, hashAlg, digestSize, nonceTpm[..nonceTpmSize], sessionKey[..sessionKeySize],
            lastCommandCode, names.Contents, pendingStartAuthSession, startAuthSessionCompatible,
            startAuthSessionAuthHash)
    }

    constructor (crypto: Crypto)
      ensures Valid() && fresh(Repr) && Abs() == RESET && this.crypto == crypto
    {
      this.crypto := crypto;
      initialized, handle, hashAlg, digestSize := false, 0, 0, 0;
      nonceTpm := new byte[MAX_DIGEST](_ => 0);
      nonceTpmSize := 0;
      sessionKey := new byte[MAX_DIGEST](_ => 0);
      sessionKeySize := 0;
      lastCommandCode := 0;
      names := new NameTable();
      pendingStartAuthSession, startAuthSessionCompatible, startAuthSessionAuthHash := false, false, 0;
    }

    /** SessionAuthReset: everything is zeroed. */
    method Reset()
      requires Valid()
      modifies Repr
      ensures Valid() && Abs() == RESET
    {
      hide Bounded;
      names.Clear();
      Memzero(nonceTpm);
      Memzero(sessionKey);
      initialized, handle, hashAlg, digestSize := false, 0, 0, 0;
      nonceTpmSize, sessionKeySize, lastCommandCode := 0, 0, 0;
      pendingStartAuthSession, startAuthSessionCompatible, startAuthSessionAuthHash := false, false, 0;
    }

    /** SessionAuthInit: arms the layer, forgetting all else. */
    method Init(sessionHandle: u32, nonce: bytes, key: bytes, authHashAlg: u16)
      requires Valid()
      modifies Repr
      ensures Valid() && Abs() == Armed(sessionHandle, nonce, key, authHashAlg)
    {
      hide Overwrite;
      Reset();
      initialized := true;
      handle := sessionHandle;
      hashAlg := authHashAlg;
      digestSize := DigestSizeFor(authHashAlg);
      SetNonce(if |nonce| > nonceTpm.Length then nonce[..nonceTpm.Length] else nonce);
      SetKey(if |key| > sessionKey.Length then key[..sessionKey.Length] else key);
    }

    method SetNonce(nonce: bytes)
      requires Valid() && |nonce| <= MAX_DIGEST
      modifies nonceTpm, this`nonceTpmSize
      ensures Valid() && Abs() == old(Abs()).(nonceTpm := nonce)
    {
      hide Overwrite, Bounded;
      OverwriteFront(nonceTpm[..], nonce);
      Memcpy(nonceTpm, 0, nonce);
      nonceTpmSize := |nonce|;
      assert nonceTpm[..nonceTpmSize] == nonceTpm[..][..nonceTpmSize];
    }

    method SetKey(key: bytes)
      requires Valid() && |key| <= MAX_DIGEST
      modifies sessionKey, this`sessionKeySize
      ensures Valid() && Abs() == old(Abs()).(sessionKey := key)
    {
      hide Overwrite, Bounded;
      OverwriteFront(sessionKey[..], key);
      Memcpy(sessionKey, 0, key);
      sessionKeySize := |key|;
      assert sessionKey[..sessionKeySize] == sessionKey[..][..sessionKeySize];
    }

    method GetSessionHandle() returns (h: u32)
      requires Valid()
      ensures h == SessionHandle(Abs())
    {
      h := if initialized then handle else 0;
    }

    // -------------------------------------------------------------------------
    // Names and hashes
    // -------------------------------------------------------------------------

    /** Writes the Name of a handle and returns its size; 0 when it is not known or does not fit. */
    method GetHandleName(handle: u32, nameOut: array<byte>, nameCap: nat) returns (size: nat)
      requires Valid() && nameOut !in Repr && nameCap <= nameOut.Length
      modifies nameOut
      ensures var name := HandleName(names.Contents, handle);
              if |name| <= nameCap then size == |name| && nameOut[..size] == name else size == 0
      // by range: self-named handles, objects, and the rest
      ensures handle < 0x0100_0000 || 0x0200_0000 <= handle < 0x0400_0000 || 0x4000_0000 <= handle < 0x4100_0000 ==>
                if nameCap < 4 then size == 0 else size == 4 && nameOut[..4] == Be32(handle)
      ensures 0x8000_0000 <= handle < 0x8200_0000 ==>
                var name := NameIn(names.Contents, handle);
                if |name| <= nameCap then size == |name| && nameOut[..size] == name else size == 0
      ensures (0x0100_0000 <= handle < 0x0200_0000 || 0x0400_0000 <= handle < 0x4000_0000
               || 0x4100_0000 <= handle < 0x8000_0000 || 0x8200_0000 <= handle) ==> size == 0
    {
      NameByRange(names.Contents, handle);
      var handleType := handle / 0x100_0000;
      if handleType == 0x80 || handleType == 0x81 {
        size := names.Lookup(handle, nameOut, nameCap);
        assert nameOut[..size] == nameOut[..][..size];
        return;
      }
      if handleType == 0x40 {
        if nameCap < 4 {
          return 0;
        }
        Write32(nameOut, 0, handle);
        assert nameOut[..4] == nameOut[..][..4];
        return 4;
      }
      if handleType == 0x00 || handleType == 0x02 || handleType == 0x03 {
        if nameCap < 4 {
          return 0;
        }
        Write32(nameOut, 0, handle);
        assert nameOut[..4] == nameOut[..][..4];
        return 4;
      }
      size := 0;
    }

    /** cpHash over the command code, the Names of all handles, and the parameters. */
    method ComputeCpHash(cmd: bytes, commandCode: u32, handleCount: nat, cpOff: nat) returns (r: Option<Digest>)
      requires Valid() && 10 + 4 * handleCount <= |cmd| && cpOff <= |cmd|
      ensures var known := NamesOf(names.Contents, ReadHandles(cmd, 10, handleCount));
              r == if known.Some? then Some(CpHash(crypto, commandCode, known.value, cmd[cpOff..])) else None
    {
      hide Be16, Be32, Read16, Read32, HandleName, NameIn, Has;
      ghost var hs := ReadHandles(cmd, 10, handleCount);
      ghost var known := NamesOf(names.Contents, hs);
      var message := Be32(commandCode);
      for i := 0 to handleCount
        invariant known.Some? <==> NamesOf(names.Contents, hs[i..]).Some?
        invariant known.Some? ==>
                    Be32(commandCode) + known.value == message + NamesOf(names.Contents, hs[i..]).value
      {
        ReadHandlesAt(cmd, 10, handleCount, i);
        var h := Read32(cmd, 10 + 4 * i);
        var name := new byte[MAX_NAME_SIZE];
        var nameSize := GetHandleName(h, name, name.Length);
        HandleNameFits(names.Contents, h);
        assert hs[i..][0] == h && hs[i..][1..] == hs[i + 1..];
        if nameSize == 0 {
          return None;
        }
        message := message + name[..nameSize];
      }
      assert hs[handleCount..] == [] && message + [] == message;
      message := message + cmd[cpOff..];
      r := Some(crypto.sha256(message));
    }

    lemma HandleNameFits(t: seq<NameEntry>, handle: u32)
      requires Bounded(t)
      ensures |HandleName(t, handle)| <= MAX_NAME_SIZE
    {
      hide Be32;
      if Has(t, handle) {
        assert t[IndexOf(t, handle)] in t;
      }
    }

    /** The HMAC over cpHash, both nonces and the attributes; the message fits its array. */
    method ComputeHmac(cpHash: Digest, nonceCaller: bytes, attributes: byte) returns (hmac: Digest)
      requires Valid() && |nonceCaller| == NONCE_CALLER_SIZE
      ensures hmac == AuthHmac(crypto, Abs().sessionKey, cpHash, nonceCaller, Abs().nonceTpm, attributes)
    {
      var hmacMsg := new byte[32 + NONCE_CALLER_SIZE + MAX_DIGEST + 1];
      ghost var s := hmacMsg[..];
      var mlen := 0;
      Memcpy(hmacMsg, mlen, cpHash);
      mlen := mlen + 32;
      Memcpy(hmacMsg, mlen, nonceCaller);
      mlen := mlen + |nonceCaller|;
      OverwriteAdjacent(s, 0, cpHash, nonceCaller);
      Memcpy(hmacMsg, mlen, nonceTpm[..nonceTpmSize]);
      mlen := mlen + nonceTpmSize;
      OverwriteAdjacent(s, 0, cpHash + nonceCaller, nonceTpm[..nonceTpmSize]);
      Write8(hmacMsg, mlen, attributes);
      mlen := mlen + 1;
      OverwriteAdjacent(s, 0, cpHash + nonceCaller + nonceTpm[..nonceTpmSize], [attributes]);
      assert hmacMsg[..mlen] == hmacMsg[..][..mlen]
          == cpHash + nonceCaller + nonceTpm[..nonceTpmSize] + [attributes];
      hmac := crypto.hmac(sessionKey[..sessionKeySize], hmacMsg[..mlen]);
    }

    // -------------------------------------------------------------------------
    // Commands
    // -------------------------------------------------------------------------

    method CaptureStartAuthSessionCommand(cmd: bytes)
      requires Valid()
      modifies this
      ensures Valid() && Abs() == Captured(old(Abs()), cmd)
    {
      hide OfferIn, Bounded;
      pendingStartAuthSession := true;
      startAuthSessionCompatible := false;
      var offer := ReadOffer(cmd);
      if offer.None? {
        return;
      }
      startAuthSessionAuthHash := offer.value.authHash;
      startAuthSessionCompatible := offer.value.compatible;
    }

    /** What the command offers, read at offsets. */
    method ReadOffer(cmd: bytes) returns (offer: Option<Offer>)
      ensures offer == OfferIn(cmd)
    {
      hide Be16, Be32, Read16, Read32, TakeTpm2b;
      if |cmd| < 27 {
        return None;
      }
      var p := 10;
      var tpmKey := Read32(cmd, p);
      p := p + 4;
      var bind := Read32(cmd, p);
      p := p + 4;
      SkipIsTake(cmd, p, |cmd|);
      assert cmd[18..|cmd|] == cmd[18..];
      p := SkipTpm2b(cmd, p, |cmd|);
      if p == 0 {
        return None;
      }
      var encryptedSaltOff := p;
      SkipIsTake(cmd, p, |cmd|);
      p := SkipTpm2b(cmd, p, |cmd|);
      if p == 0 {
        return None;
      }
      if p + 1 > |cmd| {
        return None;
      }
      var sessionType := cmd[p];
      var authHash := Read16(cmd, |cmd| - 2);
      var encryptedSaltSize := Read16(cmd, encryptedSaltOff);
      offer := Some(Offer(authHash,
                          && tpmKey == RH_NULL && bind == RH_NULL && encryptedSaltSize == 0 && sessionType == SE_HMAC
                          && DigestSizeFor(authHash) != 0));
    }

    /** SessionAuthPatchCommand: rewrites the command at the front of buf and returns its size. */
    method PatchCommand(buf: array?<byte>, commandSize: nat, capacity: nat) returns (newSize: nat)
      requires Valid() && buf !in Repr
      requires buf != null ==> capacity <= buf.Length
      modifies Repr, buf
      ensures Valid()
      ensures buf == null || commandSize > capacity ==>
                newSize == commandSize && Abs() == old(Abs()) && (buf != null ==> buf[..] == old(buf[..]))
      ensures buf != null && commandSize <= capacity ==>
                && newSize <= capacity && buf[newSize..] == old(buf[newSize..])
                && buf[..newSize] == Patched(crypto, old(Abs()), old(buf[..commandSize]), capacity)
                && Abs() == AfterCommand(old(Abs()), old(buf[..commandSize]), capacity)
    {
      hide Be16, Be32, Read16, Read32, TakeTpm2b, Captured, Authorized, EncodeCommand, ParseCommand;
      if buf == null || commandSize < 10 || commandSize > capacity {
        return commandSize;
      }
      var cmd := buf[..commandSize];
      var tag := Read16(cmd, 0);
      var headerSize := Read32(cmd, 2);
      if headerSize != commandSize {
        return commandSize;
      }
      var commandCode := Read32(cmd, 6);
      lastCommandCode := commandCode;
      if commandCode == CC_START_AUTH_SESSION {
        CaptureStartAuthSessionCommand(cmd);
        return commandSize;
      }
      if !initialized || digestSize == 0 {
        return commandSize;
      }
      if tag != ST_SESSIONS {
        return commandSize;
      }
      var attr := LookupCommandAttr(commandCode);
      if attr.None? {
        return commandSize;
      }
      newSize := PatchKnownCommand(buf, cmd, capacity, attr.value);
      LastCodeDoesNotMatter(crypto, old(Abs()), commandCode, cmd, capacity);
    }

    /** The rest of patching, for a session-tagged command whose handle count is known. */
    method PatchKnownCommand(buf: array<byte>, cmd: bytes, capacity: nat, attr: CommandAttrEntry)
      returns (newSize: nat)
      requires Valid() && buf !in Repr && capacity <= buf.Length
      requires Framed(cmd, capacity) && cmd == buf[..|cmd|]
      requires Known(Read32(cmd, 6)) && attr.handleCount == HandleCount(Read32(cmd, 6))
      requires Read32(cmd, 6) != CC_START_AUTH_SESSION && Read16(cmd, 0) == ST_SESSIONS
      requires initialized && digestSize != 0
      modifies buf
      ensures newSize <= capacity && buf[newSize..] == old(buf[newSize..])
      ensures buf[..newSize] == Patched(crypto, old(Abs()), cmd, capacity)
    {
      hide Be16, Be32, Read16, Read32, Target, EncodeCommand, IsSoleEntry, SoleEntry, ParseCommand, NamesOf,
           Tpm2b, Sized, Rewritten, Zeros, Filled, Authorized, AuthHmac, CpHash, Header, ReadHandles, Bounded,
           EntryChecks;
      ghost var l := Abs();
      TargetByOffsets(l, cmd);
      var found := FindAuthArea(cmd, attr.handleCount);
      if found.None? {
        return |cmd|;
      }
      var a := found.value;
      var entry := CheckEntry(cmd, a);
      if entry.None? {
        return |cmd|;
      }
      var cpOff := a.authOff + a.authSize;
      var cpHash := ComputeCpHash(cmd, Read32(cmd, 6), attr.handleCount, cpOff);
      if cpHash.None? {
        return |cmd|;
      }
      var nonceCaller := Filled(NONCE_CALLER_SIZE, NONCE_CALLER_FILL);
      var hmac := ComputeHmac(cpHash.value, nonceCaller, entry.value.attributes);
      AuthorizedHmac(crypto, l, Target(l, cmd).value);
      newSize := RewriteTarget(buf, cmd, capacity, a, entry.value, nonceCaller, hmac);
    }

    /** The authorization area of a command that is to be patched, rewritten with a given HMAC. */
    method RewriteTarget(buf: array<byte>, cmd: bytes, capacity: nat, a: AuthArea, entry: EntryOffsets,
                         nonceCaller: bytes, hmac: Digest)
      returns (newSize: nat)
      requires Valid() && buf !in Repr && capacity <= buf.Length
      requires Framed(cmd, capacity) && cmd == buf[..|cmd|] && nonceCaller == NONCE_CALLER
      requires Target(Abs(), cmd).Some?
      requires FindAuthArea(cmd, HandleCount(Read32(cmd, 6))) == Some(a) && a.authOff + a.authSize <= |cmd|
      requires var e := Target(Abs(), cmd).value.auth[0];
               && entry == EntryOffsets(a.authOff + 4, |e.nonce|, e.attributes, |e.hmac|)
               && a.authSize == 9 + |e.nonce| + |e.hmac|
      requires hmac == Authorized(crypto, Abs(), Target(Abs(), cmd).value).auth[0].hmac
      modifies buf
      ensures newSize <= capacity && buf[newSize..] == old(buf[newSize..])
      ensures buf[..newSize] == Patched(crypto, old(Abs()), cmd, capacity)
    {
      hide Be16, Be32, Read16, Read32, Target, EncodeCommand, ParseCommand, NamesOf, Tpm2b, Sized, Rewritten,
           Zeros, Filled, Authorized, AuthHmac, CpHash, Header, Bounded, Patches;
      ghost var l, s := Abs(), buf[..];
      newSize := PatchAuthArea(buf, capacity, |cmd|, entry.nonceOff, entry.nonceSize, entry.hmacSize,
                               entry.attributes, a.authSizeOff, a.authSize, nonceCaller, hmac);
      SpliceIsPatched(crypto, l, s, cmd, capacity, hmac);
    }

    /** The checks on the first entry: its session is the layer's, and it fills the area exactly. */
    method CheckEntry(cmd: bytes, a: AuthArea) returns (r: Option<EntryOffsets>)
      requires Valid() && a.authOff + a.authSize <= |cmd|
      ensures var area := cmd[a.authOff..a.authOff + a.authSize];
              && (r.Some? <==> IsSoleEntry(area) && SoleEntry(area).handle == handle)
              && (r.Some? ==>
                    var e := SoleEntry(area);
                    && r.value == EntryOffsets(a.authOff + 4, |e.nonce|, e.attributes, |e.hmac|)
                    && a.authSize == 9 + |e.nonce| + |e.hmac|)
    {
      hide Read16, Read32;
      EntryChecksAreSoleEntry(cmd, a.authOff, a.authOff + a.authSize);
      var end := a.authOff + a.authSize;
      var p := a.authOff;
      if p + 4 > end {
        return None;
      }
      var sessionHandle := Read32(cmd, p);
      p := p + 4;
      if sessionHandle != handle {
        return None;
      }
      if p + 2 > end {
        return None;
      }
      var origNonceSize := Read16(cmd, p);
      var nonceOff := p;
      p := p + 2 + origNonceSize;
      if p + 1 > end {
        return None;
      }
      var sessionAttrs := cmd[p];
      p := p + 1;
      if p + 2 > end {
        return None;
      }
      var origHmacSize := Read16(cmd, p);
      p := p + 2 + origHmacSize;
      if p != end {
        return None;
      }
      r := Some(EntryOffsets(nonceOff, origNonceSize, sessionAttrs, origHmacSize));
    }

    // -------------------------------------------------------------------------
    // Responses
    // -------------------------------------------------------------------------

    method ExtractCreatePrimaryName(resp: bytes, paramsStart: nat, paramsEnd: nat, outHandle: u32)
      requires Valid() && paramsStart <= paramsEnd <= |resp|
      modifies names.Repr
      ensures Valid()
      ensures names.Contents ==
              NamesWith(old(names.Contents), outHandle, CreatePrimaryName(resp[paramsStart..paramsEnd]))
    {
      hide TakeTpm2b, SkipTpm2b, Added;
      var p := paramsStart;
      SkipIsTake(resp, p, paramsEnd);
      p := SkipTpm2b(resp, p, paramsEnd);  // outPublic
      if p == 0 {
        return;
      }
      SkipIsTake(resp, p, paramsEnd);
      p := SkipTpm2b(resp, p, paramsEnd);  // creationData
      if p == 0 {
        return;
      }
      SkipIsTake(resp, p, paramsEnd);
      p := SkipTpm2b(resp, p, paramsEnd);  // creationHash
      if p == 0 {
        return;
      }
      if p + 6 > paramsEnd {
        return;
      }
      assert resp[p..paramsEnd][6..] == resp[p + 6..paramsEnd];
      p := p + 6;
      SkipIsTake(resp, p, paramsEnd);
      p := SkipTpm2b(resp, p, paramsEnd);  // ticket digest
      if p == 0 {
        return;
      }
      AddNameAt(resp, p, paramsEnd, outHandle);
    }

    method ExtractLoadName(resp: bytes, paramsStart: nat, paramsEnd: nat, outHandle: u32)
      requires Valid() && paramsStart <= paramsEnd <= |resp|
      modifies names.Repr
      ensures Valid()
      ensures names.Contents == NamesWith(old(names.Contents), outHandle, LoadName(resp[paramsStart..paramsEnd]))
    {
      AddNameAt(resp, paramsStart, paramsEnd, outHandle);
    }

    /** Adds the Name in the TPM2B at p, if it fits. */
    method AddNameAt(resp: bytes, p: nat, end: nat, outHandle: u32)
      requires Valid() && p <= end <= |resp|
      modifies names.Repr
      ensures Valid()
      ensures names.Contents == NamesWith(old(names.Contents), outHandle, LoadName(resp[p..end]))
    {
      hide TakeTpm2b, Added;
      SkipIsTake(resp, p, end);
      if p + 2 > end {
        return;
      }
      var nameSize := Read16(resp, p);
      if p + 2 + nameSize > end {
        return;
      }
      names.Add(outHandle, resp[p + 2..p + 2 + nameSize]);
    }

    method PopulateNameFromResponse(commandCode: u32, resp: bytes, paramsOff: nat, paramsEnd: nat, outHandle: u32)
      requires Valid() && paramsOff <= paramsEnd <= |resp|
      modifies names.Repr
      ensures Valid()
      ensures names.Contents ==
              NamesWith(old(names.Contents), outHandle, ResponseName(commandCode, resp[paramsOff..paramsEnd]))
    {
      hide CreatePrimaryName, LoadName, Added;
      if commandCode == CC_CREATE_PRIMARY {
        ExtractCreatePrimaryName(resp, paramsOff, paramsEnd, outHandle);
      } else if commandCode == CC_LOAD {
        ExtractLoadName(resp, paramsOff, paramsEnd, outHandle);
      }
    }

    /** SessionAuthProcessResponse. */
    method ProcessResponse(buf: array?<byte>, size: nat)
      requires Valid() && (buf != null ==> size <= buf.Length)
      modifies Repr
      ensures Valid()
      ensures buf == null ==> Abs() == old(Abs())
      ensures buf != null ==> Abs() == AfterResponse(old(Abs()), old(buf[..size]))
    {
      if buf == null || size < 10 {
        return;
      }
      var resp := buf[..size];
      var tag := Read16(resp, 0);
      var hdrSize := Read32(resp, 2);
      var rc := Read32(resp, 6);
      if hdrSize != size {
        return;
      }
      if pendingStartAuthSession {
        ConsumeStartAuthSessionResponse(resp);
        return;
      }
      if !initialized {
        return;
      }
      if tag != ST_SESSIONS || rc != RC_SUCCESS {
        return;
      }
      var attr := LookupCommandAttr(lastCommandCode);
      if attr.None? {
        return;
      }
      FollowResponse(resp, attr.value.outHandleCount);
    }

    /** The pending StartAuthSession consumes the response and arms the layer if all is well. */
    method ConsumeStartAuthSessionResponse(resp: bytes)
      requires Valid() && 10 <= |resp|
      modifies Repr
      ensures Valid() && Abs() == Consumed(old(Abs()), resp)
    {
      hide TakeTpm2b, Armed;
      var compatible := startAuthSessionCompatible;
      var authHash := startAuthSessionAuthHash;
      pendingStartAuthSession := false;
      startAuthSessionCompatible := false;
      if Read16(resp, 0) != ST_NO_SESSIONS || Read32(resp, 6) != RC_SUCCESS {
        return;
      }
      if !compatible || |resp| < 16 {
        return;
      }
      TakeTpm2bAt(resp, 14);
      var sessionHandle := Read32(resp, 10);
      var nonceSize := Read16(resp, 14);
      if 16 + nonceSize > |resp| {
        return;
      }
      Init(sessionHandle, resp[16..16 + nonceSize], [], authHash);
    }

    /** The response's nonce is for the next command's HMAC. */
    method RefreshNonce(nonce: bytes)
      requires Valid()
      modifies nonceTpm, this`nonceTpmSize
      ensures Valid() && Abs() == Rolled(old(Abs()), nonce)
    {
      if |nonce| > 0 && |nonce| <= nonceTpm.Length {
        SetNonce(nonce);
      }
    }

    /** Takes the new nonce and the Name of a new object from a response. */
    method FollowResponse(resp: bytes, outHandleCount: nat)
      requires Valid() && 10 <= |resp| && outHandleCount <= 1
      modifies Repr
      ensures Valid()
      ensures var l := old(Abs());
              Abs() == match ParseResponse(resp, outHandleCount)
                case None => l
                case Some(r) =>
                  Rolled(l, r.nonce).(names := if outHandleCount == 0 then l.names
                                               else NamesWith(l.names, r.handles[0],
                                                              ResponseName(l.lastCommandCode, r.params)))
    {
      hide TakeTpm2b, ResponseName, Added, Read16, Read32, Rolled;
      var paramsSizeOff := 10 + 4 * outHandleCount;
      if paramsSizeOff + 4 > |resp| {
        return;
      }
      var paramSize := Read32(resp, paramsSizeOff);
      var paramsOff := paramsSizeOff + 4;
      if paramsOff + paramSize > |resp| {
        return;
      }
      var authAreaOff := paramsOff + paramSize;
      TakeTpm2bAt(resp, authAreaOff);
      if authAreaOff + 2 > |resp| {
        return;
      }
      var nonceSize := Read16(resp, authAreaOff);
      if authAreaOff + 2 + nonceSize > |resp| {
        return;
      }
      RefreshNonce(resp[authAreaOff + 2..authAreaOff + 2 + nonceSize]);
      if outHandleCount == 0 {
        return;
      }
      var outHandle := Read32(resp, 10);
      PopulateNameFromResponse(lastCommandCode, resp, paramsOff, paramsOff + paramSize, outHandle);
    }
  }

  /** The Names after a response that may carry one. */
  function NamesWith(t: seq<NameEntry>, handle: u32, name: Option<bytes>): seq<NameEntry> {
    match name
    case None => t
    case Some(n) => Added(t, handle, n)
  }

  /** Where the first entry's nonce starts, how long nonce and HMAC are, and the attributes. */
  datatype EntryOffsets = EntryOffsets(nonceOff: nat, nonceSize: nat, attributes: byte, hmacSize: nat)

  lemma HandleAt(cmd: bytes, n: nat)
    requires ParseCommand(cmd, n).Some? && |ParseCommand(cmd, n).value.auth| == 1
    ensures 18 + 4 * n <= |cmd|
    ensures cmd[14 + 4 * n..18 + 4 * n] == Be32(ParseCommand(cmd, n).value.auth[0].handle)
    ensures var e := ParseCommand(cmd, n).value.auth[0]; Read32(cmd, 10 + 4 * n) == 9 + |e.nonce| + |e.hmac|
  {
    hide Be16, Be32, Read16, Read32, Tpm2b, ParseCommand, EncodeCommand;
    var c := ParseCommand(cmd, n).value;
    EncodeOfParseCommand(cmd, n);
    CommandFields(c);
    EncodeOneEntry(c.auth[0]);
    assert c.auth == [c.auth[0]];
    var area := EncodeEntry(c.auth[0]);
    Inner(cmd, 14 + 4 * n, 14 + 4 * n + |area|, 0, 4);
    Parts4(Be32(c.auth[0].handle), Tpm2b(c.auth[0].nonce), [c.auth[0].attributes], Tpm2b(c.auth[0].hmac));
  }

  /** The HMAC of an authorized command, from its parts. */
  lemma AuthorizedHmac(crypto: Crypto, l: Layer, c: Command)
    requires |c.auth| == 1 && NamesOf(l.names, c.handles).Some?
    ensures Authorized(crypto, l, c).auth[0].hmac
            == AuthHmac(crypto, l.sessionKey, CpHash(crypto, c.code, NamesOf(l.names, c.handles).value, c.params),
                        Filled(NONCE_CALLER_SIZE, NONCE_CALLER_FILL), l.nonceTpm, c.auth[0].attributes)
  {
  }

  /** With a single-entry area there is no padding, and the splice is the patched command. */
  lemma SpliceIsPatched(crypto: Crypto, l: Layer, s: bytes, cmd: bytes, capacity: nat, hmac: Digest)
    requires Framed(cmd, capacity) && cmd <= s && Target(l, cmd).Some?
    requires hmac == Authorized(crypto, l, Target(l, cmd).value).auth[0].hmac
    ensures var n, c := HandleCount(Read32(cmd, 6)), Target(l, cmd).value;
            var a := 10 + 4 * n;
            && a + 8 <= |cmd| && a + 4 + Read32(cmd, a) <= |cmd| && |c.auth| == 1
            && var grown := |cmd| + 48 - |c.auth[0].nonce| - |c.auth[0].hmac|;
            && grown >= 0
            && Patched(crypto, l, cmd, capacity) ==
                 if grown > capacity then cmd
                 else Header(Read16(s, 0), grown, Read32(s, 6)) + s[10..a]
                      + Sized(s[a + 4..a + 8] + Rewritten(NONCE_CALLER, c.auth[0].attributes, hmac) + Zeros(0))
                      + s[a + 4 + Read32(cmd, a)..|cmd|]
  {
    hide Be16, Be32, Read16, Read32, Header, ParseCommand, EncodeCommand, NamesOf, Tpm2b, EncodeEntry,
         Rewritten, AuthHmac, CpHash, Zeros;
    var n, c := HandleCount(Read32(cmd, 6)), Target(l, cmd).value;
    var a := 10 + 4 * n;
    HandleAt(cmd, n);
    EncodeOfParseCommand(cmd, n);
    AuthorizedWellFormed(crypto, l, c);
    if Patches(crypto, l, cmd, capacity) {
      PatchedIsSplice(crypto, l, cmd, capacity);
      ReadSame16(s, 0, cmd, 0);
      ReadSame32(s, 6, cmd, 6);
      assert s[10..a] == cmd[10..a] && s[a + 4..a + 8] == cmd[a + 4..a + 8];
      assert s[a + 4 + Read32(cmd, a)..|cmd|] == cmd[a + 4 + Read32(cmd, a)..];
      EntryOfParts(Authorized(crypto, l, c).auth[0]);
    }
  }

  lemma EntryOfParts(e: AuthEntry)
    ensures EncodeEntry(e) == Be32(e.handle) + Rewritten(e.nonce, e.attributes, e.hmac) + Zeros(0)
  {
    hide Be16, Be32;
    assert Zeros(0) == [];
  }
}
