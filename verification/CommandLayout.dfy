/**
  What TPM commands with an authorization area, and the responses to them, look
  like on the wire: abstract values, their encodings, and strict parsers. A peer
  that receives a command sees it through these parsers.
 */
module CommandLayout {
  import opened Bytes
  import opened Tpm2

  /** One entry of an authorization area. */
  datatype AuthEntry = AuthEntry(handle: u32, nonce: bytes, attributes: byte, hmac: bytes) {
    predicate WellFormed() { |nonce| < 0x1_0000 && |hmac| < 0x1_0000 }
  }

  function EncodeEntry(e: AuthEntry): (b: bytes)
    ensures |b| == 9 + |e.nonce| + |e.hmac|
  {
    Be32(e.handle) + Tpm2b(e.nonce) + [e.attributes] + Tpm2b(e.hmac)
  }

  function EncodeEntries(es: seq<AuthEntry>): bytes {
    if |es| == 0 then [] else EncodeEntry(es[0]) + EncodeEntries(es[1..])
  }

  predicate AllWellFormed(es: seq<AuthEntry>) {
    forall e | e in es :: e.WellFormed()
  }

  datatype ParsedEntry = ParsedEntry(entry: AuthEntry, rest: bytes)

  function ParseEntry(b: bytes): (r: Option<ParsedEntry>)
    ensures r.Some? ==> |r.value.rest| < |b|
  {
    if |b| < 4 then None
    else
      var nonce :- TakeTpm2b(b[4..]);
      if |nonce.rest| < 1 then None
      else
        var hmac :- TakeTpm2b(nonce.rest[1..]);
        Some(ParsedEntry(AuthEntry(Read32(b, 0), nonce.payload, nonce.rest[0], hmac.payload), hmac.rest))
  }

  lemma EncodeEntryOfParseEntry(b: bytes)
    requires ParseEntry(b).Some?
    ensures var r := ParseEntry(b).value; b == EncodeEntry(r.entry) + r.rest && r.entry.WellFormed()
  {
    hide Be16, Be32, Read16, Read32, TakeTpm2b, Tpm2b;
    var nonce := TakeTpm2b(b[4..]).value;
    var hmac := TakeTpm2b(nonce.rest[1..]).value;
    Be32OfRead32(b, 0);
    assert b == b[0..4] + b[4..];
    assert nonce.rest == [nonce.rest[0]] + nonce.rest[1..];
    Regroup4(b[0..4], Tpm2b(nonce.payload), [nonce.rest[0]], Tpm2b(hmac.payload), hmac.rest);
  }

  lemma ParseEntryOfEncodeEntry(e: AuthEntry, rest: bytes)
    requires e.WellFormed()
    ensures ParseEntry(EncodeEntry(e) + rest) == Some(ParsedEntry(e, rest))
  {
    hide Be16, Be32, Read16, Read32, TakeTpm2b, Tpm2b;
    var b, afterNonce := EncodeEntry(e) + rest, [e.attributes] + (Tpm2b(e.hmac) + rest);
    Regroup4(Be32(e.handle), Tpm2b(e.nonce), [e.attributes], Tpm2b(e.hmac), rest);
    Parts2(Be32(e.handle), Tpm2b(e.nonce) + afterNonce);
    Parts2([e.attributes], Tpm2b(e.hmac) + rest);
    Read32Stored(b, 0, e.handle);
    TakeTpm2bOfTpm2b(e.nonce, afterNonce);
    TakeTpm2bOfTpm2b(e.hmac, rest);
  }

  function ParseEntries(b: bytes): Option<seq<AuthEntry>>
    decreases |b|
  {
    if |b| == 0 then Some([])
    else
      var first :- ParseEntry(b);
      var others :- ParseEntries(first.rest);
      Some([first.entry] + others)
  }

  lemma {:induction false} EncodeEntriesOfParseEntries(b: bytes)
    requires ParseEntries(b).Some?
    ensures EncodeEntries(ParseEntries(b).value) == b && AllWellFormed(ParseEntries(b).value)
    decreases |b|
  {
    hide ParseEntry, EncodeEntry;
    if |b| != 0 {
      EncodeEntryOfParseEntry(b);
      EncodeEntriesOfParseEntries(ParseEntry(b).value.rest);
      assert ParseEntries(b).value[1..] == ParseEntries(ParseEntry(b).value.rest).value;
    }
  }

  lemma {:induction false} ParseEntriesOfEncodeEntries(es: seq<AuthEntry>)
    requires AllWellFormed(es)
    ensures ParseEntries(EncodeEntries(es)) == Some(es)
  {
    hide ParseEntry, EncodeEntry;
    if |es| != 0 {
      ParseEntryOfEncodeEntry(es[0], EncodeEntries(es[1..]));
      ParseEntriesOfEncodeEntries(es[1..]);
      assert es == [es[0]] + es[1..];
    }
  }

  function HandleBytes(hs: seq<u32>): (b: bytes)
    ensures |b| == 4 * |hs|
  {
    if |hs| == 0 then [] else Be32(hs[0]) + HandleBytes(hs[1..])
  }

  function ReadHandles(b: bytes, off: nat, n: nat): (hs: seq<u32>)
    requires off + 4 * n <= |b|
    ensures |hs| == n && HandleBytes(hs) == b[off..off + 4 * n]
    decreases n
  {
    if n == 0 then []
    else
      Be32OfRead32(b, off);
      assert b[off..off + 4 * n] == b[off..off + 4] + b[off + 4..off + 4 + 4 * (n - 1)];
      [Read32(b, off)] + ReadHandles(b, off + 4, n - 1)
  }

  lemma {:induction false} ReadHandlesAt(b: bytes, off: nat, n: nat, i: nat)
    requires off + 4 * n <= |b| && i < n
    ensures ReadHandles(b, off, n)[i] == Read32(b, off + 4 * i)
    decreases n
  {
    if i != 0 {
      ReadHandlesAt(b, off + 4, n - 1, i - 1);
    }
  }

  lemma {:induction false} ReadHandlesOfHandleBytes(hs: seq<u32>, b: bytes, off: nat)
    requires off + 4 * |hs| <= |b| && b[off..off + 4 * |hs|] == HandleBytes(hs)
    ensures ReadHandles(b, off, |hs|) == hs
    decreases |hs|
  {
    hide Be16, Be32, Read16, Read32;
    if |hs| != 0 {
      var all := b[off..off + 4 * |hs|];
      assert all[..4] == Be32(hs[0]) && all[4..] == HandleBytes(hs[1..]);
      Inner(b, off, off + 4 * |hs|, 0, 4);
      Inner(b, off, off + 4 * |hs|, 4, 4 * |hs|);
      Read32Stored(b, off, hs[0]);
      ReadHandlesOfHandleBytes(hs[1..], b, off + 4);
    }
  }

  // ---------------------------------------------------------------------------
  // Headers and sized areas
  // ---------------------------------------------------------------------------

  /** The 10-byte header of every command and response. */
  function Header(tag: u16, size: nat, code: u32): (b: bytes)
    ensures |b| == 10
  {
    Be16(tag) + Be32(size) + Be32(code)
  }

  lemma HeaderFields(b: bytes, tag: u16, size: nat, code: u32)
    requires 10 <= |b| && b[..10] == Header(tag, size, code) && size < 0x1_0000_0000
    ensures Read16(b, 0) == tag && Read32(b, 2) == size && Read32(b, 6) == code
  {
    hide Be16, Be32, Read16, Read32;
    Parts3(Be16(tag), Be32(size), Be32(code));
    Inner(b, 0, 10, 0, 2);
    Inner(b, 0, 10, 2, 6);
    Inner(b, 0, 10, 6, 10);
    Read16Stored(b, 0, tag);
    Read32Stored(b, 2, size);
    Read32Stored(b, 6, code);
  }

  lemma HeaderOfFields(b: bytes)
    requires 10 <= |b|
    ensures b[..10] == Header(Read16(b, 0), Read32(b, 2), Read32(b, 6))
  {
    Be16OfRead16(b, 0);
    Be32OfRead32(b, 2);
    Be32OfRead32(b, 6);
    assert b[..10] == b[0..2] + b[2..6] + b[6..10];
  }

  /** An area preceded by its 32-bit size. */
  function Sized(area: bytes): bytes {
    Be32(|area|) + area
  }

  lemma SizedAt(b: bytes, off: nat, area: bytes)
    requires off + 4 + |area| <= |b| && b[off..off + 4 + |area|] == Sized(area)
    requires |area| < 0x1_0000_0000
    ensures Read32(b, off) == |area| && b[off + 4..off + 4 + |area|] == area
  {
    hide Be16, Be32, Read16, Read32;
    Inner(b, off, off + 4 + |area|, 0, 4);
    Inner(b, off, off + 4 + |area|, 4, 4 + |area|);
    assert Sized(area)[0..4] == Be32(|area|) && Sized(area)[4..4 + |area|] == area;
    Read32Stored(b, off, |area|);
  }

  // ---------------------------------------------------------------------------
  // Commands
  // ---------------------------------------------------------------------------

  datatype Command =
    Command(tag: u16, code: u32, handles: seq<u32>, auth: seq<AuthEntry>, params: bytes)
  {
    predicate WellFormed() {
      && AllWellFormed(auth)
      && |EncodeEntries(auth)| < 0x1_0000_0000
      && CommandSize(this) < 0x1_0000_0000
    }
  }

  function CommandSize(c: Command): nat {
    14 + 4 * |c.handles| + |EncodeEntries(c.auth)| + |c.params|
  }

  function EncodeCommand(c: Command): (b: bytes)
    ensures |b| == CommandSize(c)
  {
    Header(c.tag, CommandSize(c), c.code) + HandleBytes(c.handles)
    + Sized(EncodeEntries(c.auth)) + c.params
  }

  /** The strict parse of a command known to carry n handles. */
  function ParseCommand(b: bytes, n: nat): Option<Command> {
    var areaOff := 14 + 4 * n;
    if |b| < areaOff || Read32(b, 2) != |b| || areaOff + Read32(b, 10 + 4 * n) > |b| then None
    else
      var paramsOff := areaOff + Read32(b, 10 + 4 * n);
      var auth :- ParseEntries(b[areaOff..paramsOff]);
      Some(Command(Read16(b, 0), Read32(b, 6), ReadHandles(b, 10, n), auth, b[paramsOff..]))
  }

  lemma CommandFields(c: Command)
    requires c.WellFormed()
    ensures var b, n, area := EncodeCommand(c), |c.handles|, EncodeEntries(c.auth);
            && Read16(b, 0) == c.tag && Read32(b, 2) == |b| && Read32(b, 6) == c.code
            && ReadHandles(b, 10, n) == c.handles && Read32(b, 10 + 4 * n) == |area|
            && b[14 + 4 * n..14 + 4 * n + |area|] == area
            && b[14 + 4 * n + |area|..] == c.params
  {
    hide Be16, Be32, Read16, Read32, Header;
    var b, n, area := EncodeCommand(c), |c.handles|, EncodeEntries(c.auth);
    Parts4(Header(c.tag, CommandSize(c), c.code), HandleBytes(c.handles), Sized(area), c.params);
    HeaderFields(b, c.tag, CommandSize(c), c.code);
    ReadHandlesOfHandleBytes(c.handles, b, 10);
    SizedAt(b, 10 + 4 * n, area);
  }

  /** Parsing undoes encoding. */
  lemma ParseCommandOfEncode(c: Command)
    requires c.WellFormed()
    ensures ParseCommand(EncodeCommand(c), |c.handles|) == Some(c)
  {
    CommandFields(c);
    ParseEntriesOfEncodeEntries(c.auth);
  }

  /** Encoding undoes parsing. */
  lemma EncodeOfParseCommand(b: bytes, n: nat)
    requires ParseCommand(b, n).Some?
    ensures var c := ParseCommand(b, n).value;
            c.WellFormed() && |c.handles| == n && EncodeCommand(c) == b
  {
    hide Be16, Be32, Read16, Read32, Header, ParseEntries, EncodeEntries;
    var areaOff, paramsOff := 14 + 4 * n, 14 + 4 * n + Read32(b, 10 + 4 * n);
    HeaderOfFields(b);
    EncodeEntriesOfParseEntries(b[areaOff..paramsOff]);
    SizedOfRead(b, 10 + 4 * n);
    Cuts(b, 10, 10 + 4 * n, paramsOff);
  }

  lemma SizedOfRead(b: bytes, off: nat)
    requires off + 4 <= |b| && off + 4 + Read32(b, off) <= |b|
    ensures Sized(b[off + 4..off + 4 + Read32(b, off)]) == b[off..off + 4 + Read32(b, off)]
  {
    hide Be16, Be32, Read16, Read32;
    Be32OfRead32(b, off);
    var end := off + 4 + Read32(b, off);
    assert b[off..end] == b[off..off + 4] + b[off + 4..end];
  }

  // ---------------------------------------------------------------------------
  // Successful responses to commands with sessions
  // ---------------------------------------------------------------------------

  /**
    The response parts the session layer looks at: output handles, parameters,
    and the new nonce of the first authorization; the rest is kept uninterpreted.
   */
  datatype Response = Response(handles: seq<u32>, params: bytes, nonce: bytes, rest: bytes) {
    predicate WellFormed() {
      |nonce| < 0x1_0000 && ResponseSize(this) < 0x1_0000_0000
    }
  }

  function ResponseSize(r: Response): nat {
    16 + 4 * |r.handles| + |r.params| + |r.nonce| + |r.rest|
  }

  function EncodeResponse(r: Response): (b: bytes)
    ensures |b| == ResponseSize(r)
  {
    Header(ST_SESSIONS, ResponseSize(r), RC_SUCCESS) + HandleBytes(r.handles)
    + Sized(r.params) + (Tpm2b(r.nonce) + r.rest)
  }

  function ParseResponse(b: bytes, n: nat): Option<Response> {
    var paramsOff := 14 + 4 * n;
    if |b| < paramsOff || paramsOff + Read32(b, 10 + 4 * n) > |b| then None
    else
      var authOff := paramsOff + Read32(b, 10 + 4 * n);
      var nonce :- TakeTpm2b(b[authOff..]);
      Some(Response(ReadHandles(b, 10, n), b[paramsOff..authOff], nonce.payload, nonce.rest))
  }

  lemma ParseResponseOfEncode(r: Response)
    requires r.WellFormed()
    ensures var b := EncodeResponse(r);
            && Read16(b, 0) == ST_SESSIONS && Read32(b, 2) == |b| && Read32(b, 6) == RC_SUCCESS
            && ParseResponse(b, |r.handles|) == Some(r)
  {
    hide Be16, Be32, Read16, Read32, TakeTpm2b, Header;
    var b, n := EncodeResponse(r), |r.handles|;
    Parts4(Header(ST_SESSIONS, ResponseSize(r), RC_SUCCESS), HandleBytes(r.handles),
           Sized(r.params), Tpm2b(r.nonce) + r.rest);
    HeaderFields(b, ST_SESSIONS, ResponseSize(r), RC_SUCCESS);
    ReadHandlesOfHandleBytes(r.handles, b, 10);
    SizedAt(b, 10 + 4 * n, r.params);
    TakeTpm2bOfTpm2b(r.nonce, r.rest);
  }
}
