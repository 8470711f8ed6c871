/**
  Marshalling protobuf commands to wire bytes (src/harness/proto_conversion.cc).
  Messages are values with their fields in declaration order; each marshaler
  stores into a fixed buffer at a moving offset.
 */
module Marshalling {
  import opened Bytes
  import opened CommandLayout
  import opened Tpm2

  const MAX_BUFFER := 0x10_0000

  type int32 = x: int | -0x8000_0000 <= x < 0x8000_0000

  datatype ProtoHeader = ProtoHeader(tag: int32, commandSize: u32, commandCode: int32)

  // The message's own nonce and HMAC sizes are not used.
  datatype ProtoSession = ProtoSession(handle: u32, nonce: bytes, attributes: u32, hmac: bytes)

  /** A structure marshalled by the Tss2_MU library: the bytes it writes, or None if it refuses. */
  type LibraryValue = Option<bytes>

  datatype Field =
    | HeaderField(header: ProtoHeader)
    | EnumByte(value: int32)      // TPMSE
    | EnumUint16(value: int32)    // TPMALG
    | EnumUint32(value: int32)    // every other enum
    | Uint32(number: u32)
    | BytesRequested(count: u32)
    | RawBytes(data: bytes)       // no message has one now
    | Sessions(sessions: seq<ProtoSession>)
    | DigestField(digest: bytes)
    | RsaScheme(scheme: int32, hashAlg: int32)
    | Library(encoded: LibraryValue)

  datatype Message =
    | NotSet
    | GetRandom(header: ProtoHeader, bytesRequested: u32)
    | Create(header: ProtoHeader, parentHandle: u32, sessions: seq<ProtoSession>, inSensitive: LibraryValue,
             inPublic: LibraryValue, outsideInfo: LibraryValue, creationPcr: LibraryValue)
    | CreatePrimary(header: ProtoHeader, hierarchy: int32, sessions: seq<ProtoSession>, inSensitive: LibraryValue,
                    inPublic: LibraryValue, outsideInfo: LibraryValue, creationPcr: LibraryValue)
    | StartAuthSession(header: ProtoHeader, tpmKey: int32, bind: int32, nonce: LibraryValue,
                       encryptedSalt: LibraryValue, sessionType: int32, symmetric: LibraryValue, authHash: int32)
    | RsaDecrypt(header: ProtoHeader, keyHandle: u32, sessions: seq<ProtoSession>, cipherText: LibraryValue,
                 scheme: int32, schemeHash: int32, oaepLabel: LibraryValue)
    | Clear(header: ProtoHeader, authHandle: u32, sessions: seq<ProtoSession>)
    | RsaEncrypt(header: ProtoHeader, keyHandle: u32, message: LibraryValue, scheme: int32, schemeHash: int32,
                 oaepLabel: LibraryValue)
    | PcrEvent(header: ProtoHeader, pcrHandle: u32, sessions: seq<ProtoSession>, eventData: LibraryValue)
    | PcrAllocate(header: ProtoHeader, hierarchy: int32, sessions: seq<ProtoSession>, pcrAllocation: LibraryValue)
    | NvDefineSpace(header: ProtoHeader, authHandle: u32, sessions: seq<ProtoSession>, auth: LibraryValue,
                    nvPublic: LibraryValue)
    | SetPrimaryPolicy(header: ProtoHeader, hierarchy: int32, sessions: seq<ProtoSession>, authPolicy: bytes,
                       hashAlg: int32)
    | Load(header: ProtoHeader, parentHandle: u32, sessions: seq<ProtoSession>, inPrivate: LibraryValue,
           inPublic: LibraryValue)
    | MakeCredential(header: ProtoHeader, handle: u32, credential: LibraryValue, objectName: LibraryValue)
    | PcrSetAuthPolicy(header: ProtoHeader, authHandle: u32, sessions: seq<ProtoSession>, authPolicy: bytes,
                       hashAlg: int32, pcrNum: u32)
    | PcrRead(header: ProtoHeader, pcrSelection: LibraryValue)

  /** A message's fields after its header, in declaration order. */
  function Body(m: Message): seq<Field>
    requires !m.NotSet?
  {
    match m
    case GetRandom(_, n) => [BytesRequested(n)]
    case Create(_, h, ss, sens, pub, info, pcr) =>
      [Uint32(h), Sessions(ss), Library(sens), Library(pub), Library(info), Library(pcr)]
    case CreatePrimary(_, h, ss, sens, pub, info, pcr) =>
      [EnumUint32(h), Sessions(ss), Library(sens), Library(pub), Library(info), Library(pcr)]
    case StartAuthSession(_, key, bind, nonce, salt, kind, sym, hash) =>
      [EnumUint32(key), EnumUint32(bind), Library(nonce), Library(salt), EnumByte(kind), Library(sym), EnumUint16(hash)]
    case RsaDecrypt(_, h, ss, text, scheme, hash, oaepLabel) =>
      [Uint32(h), Sessions(ss), Library(text), RsaScheme(scheme, hash), Library(oaepLabel)]
    case Clear(_, h, ss) => [Uint32(h), Sessions(ss)]
    case RsaEncrypt(_, h, text, scheme, hash, oaepLabel) =>
      [Uint32(h), Library(text), RsaScheme(scheme, hash), Library(oaepLabel)]
    case PcrEvent(_, h, ss, data) => [Uint32(h), Sessions(ss), Library(data)]
    case PcrAllocate(_, h, ss, pcr) => [EnumUint32(h), Sessions(ss), Library(pcr)]
    case NvDefineSpace(_, h, ss, auth, nv) => [Uint32(h), Sessions(ss), Library(auth), Library(nv)]
    case SetPrimaryPolicy(_, h, ss, policy, hash) =>
      [EnumUint32(h), Sessions(ss), DigestField(policy), EnumUint16(hash)]
    case Load(_, h, ss, priv, pub) => [Uint32(h), Sessions(ss), Library(priv), Library(pub)]
    case MakeCredential(_, h, cred, name) => [Uint32(h), Library(cred), Library(name)]
    case PcrSetAuthPolicy(_, h, ss, policy, hash, num) =>
      [Uint32(h), Sessions(ss), DigestField(policy), EnumUint16(hash), Uint32(num)]
    case PcrRead(_, pcr) => [Library(pcr)]
  }

  function Fields(m: Message): seq<Field>
    requires !m.NotSet?
  {
    [HeaderField(m.header)] + Body(m)
  }

  // ---------------------------------------------------------------------------
  // What each field is on the wire
  // ---------------------------------------------------------------------------

  /** The entry a session becomes: lengths wrap at 16 bits and the bytes beyond are dropped. */
  function SessionEntry(s: ProtoSession): (e: AuthEntry)
    ensures e.WellFormed()
  {
    AuthEntry(s.handle, s.nonce[..|s.nonce| % 0x1_0000], s.attributes % 0x100, s.hmac[..|s.hmac| % 0x1_0000])
  }

  function SessionEntries(ss: seq<ProtoSession>): (es: seq<AuthEntry>)
    ensures |es| == |ss| && AllWellFormed(es)
    ensures forall i | 0 <= i < |ss| :: es[i] == SessionEntry(ss[i])
  {
    if |ss| == 0 then [] else [SessionEntry(ss[0])] + SessionEntries(ss[1..])
  }

  /** Sizes wrap at 16 bits and attributes at 8, and the bytes kept are the first ones. */
  lemma SessionWraps(s: ProtoSession)
    ensures var e := SessionEntry(s);
            && e.handle == s.handle
            && e.nonce <= s.nonce && |e.nonce| < 0x1_0000 && (|s.nonce| - |e.nonce|) % 0x1_0000 == 0
            && e.hmac <= s.hmac && |e.hmac| < 0x1_0000 && (|s.hmac| - |e.hmac|) % 0x1_0000 == 0
            && (s.attributes - e.attributes) % 0x100 == 0
  {
  }

  function FieldEncoding(f: Field): Option<bytes> {
    match f
    case HeaderField(h) => Some(Be16(h.tag) + Be32(h.commandSize) + Be32(h.commandCode))
    case EnumByte(v) => Some([v % 0x100])
    case EnumUint16(v) => Some(Be16(v))
    case EnumUint32(v) => Some(Be32(v))
    case Uint32(v) => Some(Be32(v))
    case BytesRequested(v) => if v > 0xFFFF then None else Some(Be16(v))
    case RawBytes(data) => Some(data)
    case Sessions(ss) => Some(Sized(EncodeEntries(SessionEntries(ss))))
    case DigestField(data) => if |data| > 0xFFFF then None else Some(Tpm2b(data))
    case RsaScheme(scheme, hash) => Some(Be16(scheme) + if scheme % 0x1_0000 == ALG_OAEP then Be16(hash) else [])
    case Library(encoded) => encoded
  }

  function FieldsEncoding(fs: seq<Field>): Option<bytes> {
    if |fs| == 0 then Some([])
    else
      var first :- FieldEncoding(fs[0]);
      var others :- FieldsEncoding(fs[1..]);
      Some(first + others)
  }

  /** The whole command: the size in the header is the actual one, whatever the message said. */
  function CommandEncoding(m: Message): (r: Option<bytes>)
    ensures r.Some? ==> 10 <= |r.value| <= MAX_BUFFER
  {
    if m.NotSet? then None
    else
      var body :- FieldsEncoding(Body(m));
      if 10 + |body| > MAX_BUFFER then None
      else Some(Header(m.header.tag % 0x1_0000, 10 + |body|, m.header.commandCode % 0x1_0000_0000) + body)
  }

  /**
    What does not marshal: an empty message, a digest or a number of requested bytes
    that is over 16 bits, a structure the library refuses, and more than 1 MiB.
   */
  lemma MarshalsUnless(m: Message)
    ensures CommandEncoding(m).None? <==>
            m.NotSet? || (exists i :: 0 <= i < |Body(m)| && FieldEncoding(Body(m)[i]).None?)
            || (FieldsEncoding(Body(m)).Some? && 10 + |FieldsEncoding(Body(m)).value| > 1048576)
    ensures CommandEncoding(m).Some? ==> |CommandEncoding(m).value| <= 1048576
  {
    hide FieldEncoding;
    if !m.NotSet? {
      FieldsExist(Body(m));
    }
  }

  lemma {:induction false} FieldsExist(fs: seq<Field>)
    ensures FieldsEncoding(fs).None? <==> exists i :: 0 <= i < |fs| && FieldEncoding(fs[i]).None?
  {
    hide FieldEncoding;
    if |fs| != 0 {
      FieldsExist(fs[1..]);
      if FieldsEncoding(fs[1..]).None? {
        var i :| 0 <= i < |fs[1..]| && FieldEncoding(fs[1..][i]).None?;
        assert FieldEncoding(fs[i + 1]).None?;
      }
      if FieldsEncoding(fs).None? && FieldsEncoding(fs[1..]).Some? {
        assert FieldEncoding(fs[0]).None?;
      }
      if i :| 0 <= i < |fs| && FieldEncoding(fs[i]).None? {
        assert i != 0 ==> fs[i] == fs[1..][i - 1];
      }
    }
  }

  /** Which fields have no encoding. */
  lemma FieldFails(f: Field)
    ensures FieldEncoding(f).None? <==>
            (f.BytesRequested? && f.count > 65535) || (f.DigestField? && |f.digest| > 65535) || f == Library(None)
  {
  }

  lemma Assoc(a: bytes, b: bytes, c: bytes)
    ensures a + (b + c) == a + b + c
  {
  }

  lemma {:induction false} EncodeEntriesAppend(a: seq<AuthEntry>, b: seq<AuthEntry>)
    ensures EncodeEntries(a + b) == EncodeEntries(a) + EncodeEntries(b)
  {
    hide EncodeEntry;
    if |a| == 0 {
      assert a + b == b && EncodeEntries(a) + EncodeEntries(b) == EncodeEntries(b);
    } else {
      var es := a + b;
      assert es[0] == a[0] && es[1..] == a[1..] + b;
      EncodeEntriesAppend(a[1..], b);
      assert EncodeEntries(es) == EncodeEntry(a[0]) + EncodeEntries(es[1..]);
      Assoc(EncodeEntry(a[0]), EncodeEntries(a[1..]), EncodeEntries(b));
    }
  }

  lemma {:induction false} FieldsEncodingAppend(a: seq<Field>, b: seq<Field>)
    ensures FieldsEncoding(a + b) ==
            if FieldsEncoding(a).None? || FieldsEncoding(b).None? then None
            else Some(FieldsEncoding(a).value + FieldsEncoding(b).value)
  {
    hide FieldEncoding;
    if |a| == 0 {
      assert a + b == b;
      if FieldsEncoding(b).Some? {
        assert [] + FieldsEncoding(b).value == FieldsEncoding(b).value;
      }
    } else {
      FieldsEncodingAppend(a[1..], b);
      assert (a + b)[1..] == a[1..] + b;
      if FieldsEncoding(a).Some? && FieldsEncoding(b).Some? {
        var first, others := FieldEncoding(a[0]).value, FieldsEncoding(a[1..]).value;
        assert first + (others + FieldsEncoding(b).value) == first + others + FieldsEncoding(b).value;
      }
    }
  }

  lemma FieldsEncodingOne(f: Field)
    ensures FieldsEncoding([f]) == FieldEncoding(f)
  {
    hide FieldEncoding;
    assert [f][1..] == [] && FieldsEncoding([]) == Some([]);
    if FieldEncoding(f).Some? {
      assert FieldEncoding(f).value + [] == FieldEncoding(f).value;
    }
  }

  // ---------------------------------------------------------------------------
  // Marshalers
  // ---------------------------------------------------------------------------

  /**
    Marshalling into s at offset succeeds exactly when there is an encoding and it
    fits; then just those bytes are stored. Either way earlier bytes are kept.
   */
  ghost predicate Marshals(s: bytes, t: bytes, offset: nat, encoding: Option<bytes>, ok: bool, end: nat)
    requires offset <= |s|
  {
    && |t| == |s| && t[..offset] == s[..offset]
    && (ok <==> encoding.Some? && offset + |encoding.value| <= |s|)
    && (ok ==> end == offset + |encoding.value| && t == Overwrite(s, offset, encoding.value))
  }

  /** Marshalling one value after another marshals both. */
  lemma MarshalsThen(s: bytes, t: bytes, u: bytes, offset: nat, a: bytes, mid: nat, b: Option<bytes>, ok: bool,
                     end: nat)
    requires offset <= |s| && Marshals(s, t, offset, Some(a), true, mid)
    requires mid <= |t| && Marshals(t, u, mid, b, ok, end)
    ensures Marshals(s, u, offset, if b.Some? then Some(a + b.value) else None, ok, end)
  {
    assert u[..offset] == u[..mid][..offset] == t[..mid][..offset] == t[..offset];
    if ok {
      OverwriteAdjacent(s, offset, a, b.value);
    }
  }

  /** A marshaler that has failed on a first part has failed. */
  lemma MarshalsNot(s: bytes, t: bytes, offset: nat, a: Option<bytes>, whole: Option<bytes>, end: nat)
    requires offset <= |s| && Marshals(s, t, offset, a, false, end)
    requires whole.Some? ==> a.Some? && |a.value| <= |whole.value|
    ensures Marshals(s, t, offset, whole, false, end)
  {
  }

  method MarshalUint16(v: int, buf: array<byte>, offset: nat) returns (ok: bool, end: nat)
    requires offset <= buf.Length
    modifies buf
    ensures Marshals(old(buf[..]), buf[..], offset, Some(Be16(v)), ok, end)
  {
    hide Be16;
    if offset + 2 > buf.Length {
      return false, offset;
    }
    Write16(buf, offset, v);
    assert buf[..][..offset] == old(buf[..])[..offset];
    return true, offset + 2;
  }

  method MarshalUint32(v: int, buf: array<byte>, offset: nat) returns (ok: bool, end: nat)
    requires offset <= buf.Length
    modifies buf
    ensures Marshals(old(buf[..]), buf[..], offset, Some(Be32(v)), ok, end)
  {
    hide Be32;
    if offset + 4 > buf.Length {
      return false, offset;
    }
    Write32(buf, offset, v);
    assert buf[..][..offset] == old(buf[..])[..offset];
    return true, offset + 4;
  }

  method MarshalByte(v: byte, buf: array<byte>, offset: nat) returns (ok: bool, end: nat)
    requires offset <= buf.Length
    modifies buf
    ensures Marshals(old(buf[..]), buf[..], offset, Some([v]), ok, end)
  {
    if offset >= buf.Length {
      return false, offset;
    }
    Write8(buf, offset, v);
    assert buf[..][..offset] == old(buf[..])[..offset];
    return true, offset + 1;
  }

  method MarshalBytes(data: bytes, buf: array<byte>, offset: nat) returns (ok: bool, end: nat)
    requires offset <= buf.Length
    modifies buf
    ensures Marshals(old(buf[..]), buf[..], offset, Some(data), ok, end)
  {
    if |data| == 0 {
      assert Overwrite(buf[..], offset, []) == buf[..];
      return true, offset;
    }
    if offset + |data| > buf.Length {
      return false, offset;
    }
    Memcpy(buf, offset, data);
    assert buf[..][..offset] == old(buf[..])[..offset];
    return true, offset + |data|;
  }

  /** A 16-bit size, then that many of the first bytes. */
  method MarshalTpm2b(data: bytes, buf: array<byte>, offset: nat) returns (ok: bool, end: nat)
    requires offset <= buf.Length && |data| < 0x1_0000
    modifies buf
    ensures Marshals(old(buf[..]), buf[..], offset, Some(Tpm2b(data)), ok, end)
  {
    hide Be16, Overwrite;
    ghost var s := buf[..];
    ok, end := MarshalUint16(|data|, buf, offset);
    if !ok {
      MarshalsNot(s, buf[..], offset, Some(Be16(|data|)), Some(Tpm2b(data)), end);
      return;
    }
    ghost var t, mid := buf[..], end;
    ok, end := MarshalBytes(data, buf, end);
    MarshalsThen(s, t, buf[..], offset, Be16(|data|), mid, Some(data), ok, end);
  }

  method MarshalCommandHeader(h: ProtoHeader, buf: array<byte>, offset: nat) returns (ok: bool, end: nat)
    requires offset <= buf.Length
    modifies buf
    ensures Marshals(old(buf[..]), buf[..], offset, FieldEncoding(HeaderField(h)), ok, end)
  {
    hide Be16, Be32, Overwrite;
    ghost var s := buf[..];
    ghost var whole := FieldEncoding(HeaderField(h));
    ok, end := MarshalUint16(h.tag, buf, offset);
    if !ok {
      MarshalsNot(s, buf[..], offset, Some(Be16(h.tag)), whole, end);
      return;
    }
    ghost var t, mid := buf[..], end;
    ok, end := MarshalUint32(h.commandSize, buf, end);
    MarshalsThen(s, t, buf[..], offset, Be16(h.tag), mid, Some(Be32(h.commandSize)), ok, end);
    if !ok {
      MarshalsNot(s, buf[..], offset, Some(Be16(h.tag) + Be32(h.commandSize)), whole, end);
      return;
    }
    t, mid := buf[..], end;
    ok, end := MarshalUint32(h.commandCode, buf, end);
    MarshalsThen(s, t, buf[..], offset, Be16(h.tag) + Be32(h.commandSize), mid, Some(Be32(h.commandCode)), ok, end);
    ok := ok && end - offset == 10;
  }

  /** PatchCommandSize: the size field becomes the actual size. */
  method PatchCommandSize(buf: array<byte>, totalSize: nat)
    requires 6 <= buf.Length
    modifies buf
    ensures buf[..] == Overwrite(old(buf[..]), 2, Be32(totalSize))
  {
    Write32(buf, 2, totalSize);
  }

  method MarshalTpmSession(session: ProtoSession, buf: array<byte>, offset: nat) returns (ok: bool, end: nat)
    requires offset <= buf.Length
    modifies buf
    ensures Marshals(old(buf[..]), buf[..], offset, Some(EncodeEntry(SessionEntry(session))), ok, end)
  {
    hide Be16, Be32, Overwrite, Tpm2b;
    ghost var s := buf[..];
    ghost var e := SessionEntry(session);
    ghost var whole := Some(EncodeEntry(e));
    ok, end := MarshalUint32(session.handle, buf, offset);
    if !ok {
      MarshalsNot(s, buf[..], offset, Some(Be32(e.handle)), whole, end);
      return;
    }
    ghost var done := Be32(e.handle);

    var nonceSize := |session.nonce| % 0x1_0000;
    ghost var t, mid := buf[..], end;
    ok, end := MarshalTpm2b(session.nonce[..nonceSize], buf, end);
    MarshalsThen(s, t, buf[..], offset, done, mid, Some(Tpm2b(e.nonce)), ok, end);
    done := done + Tpm2b(e.nonce);
    if !ok {
      MarshalsNot(s, buf[..], offset, Some(done), whole, end);
      return;
    }

    t, mid := buf[..], end;
    ok, end := MarshalByte(session.attributes % 0x100, buf, end);
    MarshalsThen(s, t, buf[..], offset, done, mid, Some([e.attributes]), ok, end);
    done := done + [e.attributes];
    if !ok {
      MarshalsNot(s, buf[..], offset, Some(done), whole, end);
      return;
    }

    var hmacSize := |session.hmac| % 0x1_0000;
    t, mid := buf[..], end;
    ok, end := MarshalTpm2b(session.hmac[..hmacSize], buf, end);
    MarshalsThen(s, t, buf[..], offset, done, mid, Some(Tpm2b(e.hmac)), ok, end);
  }

  /** The sessions, one after another. */
  method MarshalSessionList(sessions: seq<ProtoSession>, buf: array<byte>, offset: nat) returns (ok: bool, end: nat)
    requires offset <= buf.Length
    modifies buf
    ensures Marshals(old(buf[..]), buf[..], offset, Some(EncodeEntries(SessionEntries(sessions))), ok, end)
  {
    hide Overwrite, EncodeEntry, EncodeEntries, SessionEntry;
    ghost var s := buf[..];
    ghost var es := SessionEntries(sessions);
    end := offset;
    EmptyEntries();
    MarshalsNothing(s, offset);
    for i := 0 to |sessions|
      invariant end <= buf.Length
      invariant Marshals(s, buf[..], offset, Some(EncodeEntries(es[..i])), true, end)
    {
      ghost var t, mid := buf[..], end;
      ok, end := MarshalTpmSession(sessions[i], buf, end);
      MarshalsThen(s, t, buf[..], offset, EncodeEntries(es[..i]), mid, Some(EncodeEntry(es[i])), ok, end);
      EntriesSnoc(es, i);
      if !ok {
        MarshalsNot(s, buf[..], offset, Some(EncodeEntries(es[..i + 1])), Some(EncodeEntries(es)), end);
        return;
      }
    }
    ok := true;
    assert es[..|sessions|] == es;
  }

  lemma EmptyEntries()
    ensures EncodeEntries([]) == []
  {
  }

  lemma MarshalsNothing(s: bytes, offset: nat)
    requires offset <= |s|
    ensures Marshals(s, s, offset, Some([]), true, offset)
  {
  }

  lemma EntriesSnoc(es: seq<AuthEntry>, i: nat)
    requires i < |es|
    ensures EncodeEntries(es[..i + 1]) == EncodeEntries(es[..i]) + EncodeEntry(es[i])
    ensures |EncodeEntries(es[..i + 1])| <= |EncodeEntries(es)|
  {
    hide EncodeEntry;
    EncodeEntriesAppend(es[..i], [es[i]]);
    assert es[..i + 1] == es[..i] + [es[i]];
    assert EncodeEntries([es[i]]) == EncodeEntry(es[i]) + EncodeEntries([es[i]][1..]);
    EncodeEntriesAppend(es[..i + 1], es[i + 1..]);
    assert es == es[..i + 1] + es[i + 1..];
  }

  /** What is marshalled for a list of sessions always parses, even when lengths have wrapped. */
  lemma MarshalledSessionsParse(ss: seq<ProtoSession>)
    ensures ParseEntries(EncodeEntries(SessionEntries(ss))) == Some(SessionEntries(ss))
  {
    ParseEntriesOfEncodeEntries(SessionEntries(ss));
  }

  /** The size placeholder, the sessions, and the size patched back in. */
  method MarshalRepeatedField(sessions: seq<ProtoSession>, buf: array<byte>, offset: nat) returns (ok: bool, end: nat)
    requires offset <= buf.Length
    modifies buf
    ensures Marshals(old(buf[..]), buf[..], offset, FieldEncoding(Sessions(sessions)), ok, end)
  {
    hide Be32, Overwrite, EncodeEntries, SessionEntries;
    ghost var s := buf[..];
    ghost var area := EncodeEntries(SessionEntries(sessions));
    ghost var whole := FieldEncoding(Sessions(sessions));
    var authSizePos := offset;
    ok, end := MarshalUint32(0, buf, offset);
    if !ok {
      MarshalsNot(s, buf[..], offset, Some(Be32(0)), whole, end);
      return;
    }
    var authAreaStart := end;
    ghost var t := buf[..];
    ok, end := MarshalSessionList(sessions, buf, end);
    MarshalsThen(s, t, buf[..], offset, Be32(0), authAreaStart, Some(area), ok, end);
    if !ok {
      MarshalsNot(s, buf[..], offset, Some(Be32(0) + area), whole, end);
      return;
    }
    var authAreaSize := end - authAreaStart;
    t := buf[..];
    var tmp;
    ok, tmp := MarshalUint32(authAreaSize, buf, authSizePos);
    BackPatch(s, offset, Be32(0), Be32(|area|), area);
  }

  /** Patching a placeholder is as good as storing the right bytes at first. */
  lemma BackPatch(s: bytes, offset: nat, placeholder: bytes, actual: bytes, rest: bytes)
    requires |placeholder| == |actual| && offset + |actual| + |rest| <= |s|
    ensures Overwrite(Overwrite(s, offset, placeholder + rest), offset, actual) == Overwrite(s, offset, actual + rest)
    ensures Overwrite(s, offset, actual + rest)[..offset] == s[..offset]
  {
  }

  method MarshalTpmtRsaDecrypt(scheme: int32, hashAlg: int32, buf: array<byte>, offset: nat)
    returns (ok: bool, end: nat)
    requires offset <= buf.Length
    modifies buf
    ensures Marshals(old(buf[..]), buf[..], offset, FieldEncoding(RsaScheme(scheme, hashAlg)), ok, end)
  {
    hide Be16, Overwrite;
    ghost var s := buf[..];
    ok, end := MarshalUint16(scheme, buf, offset);
    if !ok {
      MarshalsNot(s, buf[..], offset, Some(Be16(scheme)), FieldEncoding(RsaScheme(scheme, hashAlg)), end);
      return;
    }
    if scheme % 0x1_0000 == ALG_OAEP {
      ghost var t, mid := buf[..], end;
      ok, end := MarshalUint16(hashAlg, buf, end);
      MarshalsThen(s, t, buf[..], offset, Be16(scheme), mid, Some(Be16(hashAlg)), ok, end);
    } else {
      assert Be16(scheme) + [] == Be16(scheme);
    }
  }

  /** MarshalCommandField and MarshalMessageField: one field, whatever its type. */
  method MarshalCommandField(f: Field, buf: array<byte>, offset: nat) returns (ok: bool, end: nat)
    requires offset <= buf.Length
    modifies buf
    ensures Marshals(old(buf[..]), buf[..], offset, FieldEncoding(f), ok, end)
  {
    hide Be16, Be32, Overwrite, EncodeEntries, SessionEntries, Sized;
    ok, end := false, offset;
    match f
    case HeaderField(h) => ok, end := MarshalCommandHeader(h, buf, offset);
    case EnumByte(v) => ok, end := MarshalByte(v % 0x100, buf, offset);
    case EnumUint16(v) => ok, end := MarshalUint16(v, buf, offset);
    case EnumUint32(v) => ok, end := MarshalUint32(v, buf, offset);
    case Uint32(v) => ok, end := MarshalUint32(v, buf, offset);
    case BytesRequested(v) =>
      if v > 0xFFFF {
        return;
      }
      ok, end := MarshalUint16(v, buf, offset);
    case RawBytes(data) => ok, end := MarshalBytes(data, buf, offset);
    case Sessions(ss) => ok, end := MarshalRepeatedField(ss, buf, offset);
    case DigestField(data) =>
      if |data| > 0xFFFF {
        return;
      }
      ok, end := MarshalTpm2b(data, buf, offset);
    case RsaScheme(scheme, hash) => ok, end := MarshalTpmtRsaDecrypt(scheme, hash, buf, offset);
    case Library(encoded) =>
      if encoded.None? {
        return;
      }
      ok, end := MarshalBytes(encoded.value, buf, offset);
  }

  /** MarshalTPMCommand: all fields in declaration order. */
  method MarshalFields(fs: seq<Field>, buf: array<byte>, offset: nat) returns (ok: bool, end: nat)
    requires offset <= buf.Length
    modifies buf
    ensures Marshals(old(buf[..]), buf[..], offset, FieldsEncoding(fs), ok, end)
  {
    hide Overwrite, FieldEncoding;
    ghost var s := buf[..];
    end := offset;
    MarshalsNothing(s, offset);
    for i := 0 to |fs|
      invariant end <= buf.Length && FieldsEncoding(fs[..i]).Some?
      invariant Marshals(s, buf[..], offset, FieldsEncoding(fs[..i]), true, end)
    {
      ghost var t, mid := buf[..], end;
      ok, end := MarshalCommandField(fs[i], buf, end);
      MarshalsThen(s, t, buf[..], offset, FieldsEncoding(fs[..i]).value, mid, FieldEncoding(fs[i]), ok, end);
      FieldsSnoc(fs, i);
      if !ok {
        MarshalsNot(s, buf[..], offset, FieldsEncoding(fs[..i + 1]), FieldsEncoding(fs), end);
        return;
      }
    }
    ok := true;
    assert fs[..|fs|] == fs;
  }

  lemma FieldsSnoc(fs: seq<Field>, i: nat)
    requires i < |fs| && FieldsEncoding(fs[..i]).Some?
    ensures FieldsEncoding(fs[..i + 1]) ==
            if FieldEncoding(fs[i]).None? then None
            else Some(FieldsEncoding(fs[..i]).value + FieldEncoding(fs[i]).value)
    ensures FieldsEncoding(fs).Some? ==>
              FieldsEncoding(fs[..i + 1]).Some?
              && |FieldsEncoding(fs[..i + 1]).value| <= |FieldsEncoding(fs).value|
  {
    hide FieldsEncoding, FieldEncoding;
    FieldsEncodingOne(fs[i]);
    FieldsEncodingAppend(fs[..i], [fs[i]]);
    assert fs[..i + 1] == fs[..i] + [fs[i]];
    FieldsEncodingAppend(fs[..i + 1], fs[i + 1..]);
    assert fs == fs[..i + 1] + fs[i + 1..];
  }

  /** MarshalCommand succeeds exactly on commands with an encoding, and then returns it. */
  method MarshalCommand(m: Message) returns (ok: bool, out: bytes)
    ensures ok <==> CommandEncoding(m).Some?
    ensures ok ==> out == CommandEncoding(m).value
  {
    hide Be16, Be32, FieldEncoding, FieldsEncoding, Overwrite, Body;
    var buf := new byte[MAX_BUFFER](_ => 0);
    if m.NotSet? {
      return false, [];
    }
    ghost var s := buf[..];
    var offset;
    ok, offset := MarshalFields(Fields(m), buf, 0);
    HeaderThenBody(m);
    if !ok {
      return false, [];
    }
    ghost var t := buf[..];
    PatchCommandSize(buf, offset);
    out := buf[..offset];
    assert out == buf[..][..offset];
    SizePatched(s, t, m, offset);
  }

  lemma HeaderThenBody(m: Message)
    requires !m.NotSet?
    ensures FieldsEncoding(Fields(m)) ==
            if FieldsEncoding(Body(m)).None? then None
            else Some(Be16(m.header.tag) + Be32(m.header.commandSize) + Be32(m.header.commandCode)
                      + FieldsEncoding(Body(m)).value)
  {
    hide Be16, Be32, Body;
    assert Fields(m)[0] == HeaderField(m.header) && Fields(m)[1..] == Body(m);
  }

  lemma SizePatched(s: bytes, t: bytes, m: Message, size: nat)
    requires !m.NotSet? && FieldsEncoding(Fields(m)).Some? && |s| == MAX_BUFFER
    requires size == |FieldsEncoding(Fields(m)).value| <= |s|
    requires t == Overwrite(s, 0, FieldsEncoding(Fields(m)).value)
    ensures 6 <= |t| && CommandEncoding(m).Some?
    ensures Overwrite(t, 2, Be32(size))[..size] == CommandEncoding(m).value
  {
    hide Be16, Be32, FieldsEncoding, FieldEncoding, Body, Fields, Overwrite;
    HeaderThenBody(m);
    var body := FieldsEncoding(Body(m)).value;
    var h := m.header;
    SizeInHeader(s, Be16(h.tag), Be32(h.commandSize), Be32(size), Be32(h.commandCode), body);
    Be16Wraps(h.tag % 0x1_0000, h.tag / 0x1_0000);
    Be32Wraps(h.commandCode);
  }

  lemma Be16Wraps(x: int, k: int)
    ensures Be16(x + k * 0x1_0000) == Be16(x)
  {
    assert (x + k * 0x1_0000) / 0x100 == x / 0x100 + k * 0x100;
  }

  lemma Be32Wraps(v: int)
    ensures Be32(v % 0x1_0000_0000) == Be32(v)
  {
    hide Be16;
    var q, r := v / 0x1_0000_0000, v % 0x1_0000_0000;
    assert v == r + (q * 0x1_0000) * 0x1_0000;
    Be16Wraps(r, q * 0x1_0000);
    assert v / 0x1_0000 == r / 0x1_0000 + q * 0x1_0000;
    Be16Wraps(r / 0x1_0000, q);
  }

  lemma SizeInHeader(s: bytes, tag: bytes, size: bytes, actual: bytes, code: bytes, body: bytes)
    requires |tag| == 2 && |size| == |actual| == |code| == 4 && 10 + |body| <= |s|
    ensures var t := Overwrite(s, 0, tag + size + code + body);
            Overwrite(t, 2, actual)[..10 + |body|] == tag + actual + code + body
  {
  }
}
