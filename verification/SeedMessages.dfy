/** The to_proto methods of the seed generator and the structure parsers they compose. */
module SeedMessages {
  import opened Bytes
  import opened SeedParsers
  import opened SeedTypes
  import opened Tpm2

  // ---------------------------------------------------------------------------
  // PCR selections
  // ---------------------------------------------------------------------------

  datatype SeedPcr = SeedPcr(hash: nat, sizeofSelect: nat, select: bytes)
  datatype PcrStep = PcrStep(pcr: SeedPcr, next: nat)
  datatype SeedPcrList = SeedPcrList(count: nat, selections: seq<SeedPcr>)

  /** One turn of the loop in _proto_pcr_selection. */
  function PcrAt(b: bytes, off: nat): Option<PcrStep> {
    if off + 2 >= |b| then None
    else
      var size := b[off + 2];
      Some(PcrStep(SeedPcr(IntAt(b, off, 2), size, Slice(b, off + 3, off + 3 + size)), off + 3 + size))
  }

  function PcrsFrom(b: bytes, off: nat, count: nat): Option<seq<SeedPcr>>
    decreases count
  {
    if count == 0 then Some([])
    else
      var step :- PcrAt(b, off);
      var others :- PcrsFrom(b, step.next, count - 1);
      Some([step.pcr] + others)
  }

  function PcrList(b: bytes): Option<SeedPcrList> {
    var pcrs :- PcrsFrom(b, 4, IntAt(b, 0, 4));
    Some(SeedPcrList(IntAt(b, 0, 4), pcrs))
  }

  method ProtoPcrSelection(payload: bytes) returns (r: Option<SeedPcrList>)
    ensures r == PcrList(payload)
    ensures forall ss: seq<PcrSelection> | PcrListBytes(ss) == Some(payload) :: r == Some(SeedPcrs(ss))
  {
    hide IntAt, Slice, PcrListBytes, SeedPcrs;
    PcrListOfBytes(payload);
    var count := IntAt(payload, 0, 4);
    var offset: nat := 4;
    var selections := [];
    assert PcrsFrom(payload, 4, count).Some? ==>
        [] + PcrsFrom(payload, 4, count).value == PcrsFrom(payload, 4, count).value;
    for i := 0 to count
      invariant PcrsFrom(payload, 4, count) ==
                if PcrsFrom(payload, offset, count - i).None? then None
                else Some(selections + PcrsFrom(payload, offset, count - i).value)
    {
      var hashAlg := IntAt(payload, offset, 2);
      ghost var start := offset;
      offset := offset + 2;
      if offset >= |payload| {
        return None;
      }
      var sizeofSelect := payload[offset];
      offset := offset + 1;
      var pcrSelect := Slice(payload, offset, offset + sizeofSelect);
      offset := offset + sizeofSelect;
      ghost var pcr, others := PcrAt(payload, start).value.pcr, PcrsFrom(payload, offset, count - i - 1);
      assert others.Some? ==> selections + ([pcr] + others.value) == selections + [pcr] + others.value;
      selections := selections + [SeedPcr(hashAlg, sizeofSelect, pcrSelect)];
    }
    assert selections + [] == selections;
    r := Some(SeedPcrList(count, selections));
  }

  function SeedPcrOf(s: PcrSelection): SeedPcr
    requires PcrSelectionBytes(s).Some?
  {
    SeedPcr(s.hash, |s.select|, s.select)
  }

  function SeedPcrSeq(ss: seq<PcrSelection>): seq<SeedPcr>
    requires PcrSelectionsBytes(ss).Some?
  {
    if |ss| == 0 then [] else [SeedPcrOf(ss[0])] + SeedPcrSeq(ss[1..])
  }

  function SeedPcrs(ss: seq<PcrSelection>): SeedPcrList
    requires PcrListBytes(ss).Some?
  {
    SeedPcrList(|ss|, SeedPcrSeq(ss))
  }

  lemma PcrThere(b: bytes, off: nat, s: PcrSelection, rest: bytes)
    requires PcrSelectionBytes(s).Some? && At(b, off, PcrSelectionBytes(s).value, rest)
    ensures PcrAt(b, off) == Some(PcrStep(SeedPcrOf(s), off + |PcrSelectionBytes(s).value|))
  {
    hide IntAt, Slice, ToBytes;
    var alg, size := ToBytes(s.hash, 2).value, ToBytes(|s.select|, 1).value;
    assert alg + size + s.select + rest == alg + (size + (s.select + rest));
    IntThere(b, off, s.hash, 2, size + (s.select + rest));
    ByteThere(b, off + 2, |s.select|, s.select + rest);
    Advance(b, off + 3, s.select, rest);
    OneByte(|s.select|);
    TwoBytes(s.hash);
  }

  lemma OneByte(v: int)
    requires ToBytes(v, 1).Some?
    ensures |ToBytes(v, 1).value| == 1 && 0 <= v < 0x100
  {
    ToBytesStores(v);
  }

  lemma TwoBytes(v: int)
    requires ToBytes(v, 2).Some?
    ensures |ToBytes(v, 2).value| == 2 && 0 <= v < 0x1_0000
  {
    ToBytesStores(v);
  }

  lemma FourBytes(v: int)
    requires ToBytes(v, 4).Some?
    ensures |ToBytes(v, 4).value| == 4 && 0 <= v < 0x1_0000_0000
  {
    ToBytesStores(v);
  }

  lemma {:induction false} PcrsThere(b: bytes, off: nat, ss: seq<PcrSelection>)
    requires PcrSelectionsBytes(ss).Some? && off <= |b| && b[off..] == PcrSelectionsBytes(ss).value
    ensures PcrsFrom(b, off, |ss|) == Some(SeedPcrSeq(ss))
    decreases |ss|
  {
    hide PcrAt, PcrSelectionBytes, SeedPcrOf;
    if |ss| != 0 {
      var first, others := PcrSelectionBytes(ss[0]).value, PcrSelectionsBytes(ss[1..]).value;
      PcrThere(b, off, ss[0], others);
      Advance(b, off, first, others);
      PcrsThere(b, off + |first|, ss[1..]);
    }
  }

  /** _proto_pcr_selection inverts TPML_PCR_SELECTION.to_bytes, for every list. */
  lemma PcrListInverts(ss: seq<PcrSelection>)
    requires PcrListBytes(ss).Some?
    ensures PcrList(PcrListBytes(ss).value) == Some(SeedPcrs(ss))
  {
    hide PcrsFrom, PcrSelectionsBytes, SeedPcrSeq, IntAt, ToBytes;
    var b, count, body := PcrListBytes(ss).value, ToBytes(|ss|, 4).value, PcrSelectionsBytes(ss).value;
    assert b[0..] == count + body;
    IntThere(b, 0, |ss|, 4, body);
    PcrsThere(b, 4, ss);
  }

  /** A list with fewer selections than it says makes the parser raise. */
  lemma {:induction false} ShortListRaises(b: bytes, off: nat, ss: seq<PcrSelection>, count: nat)
    requires PcrSelectionsBytes(ss).Some? && off <= |b| && b[off..] == PcrSelectionsBytes(ss).value && |ss| < count
    ensures PcrsFrom(b, off, count).None?
    decreases |ss|
  {
    hide PcrSelectionBytes, SeedPcrOf, IntAt, Slice;
    if |ss| == 0 {
      assert off == |b|;
    } else {
      var first, others := PcrSelectionBytes(ss[0]).value, PcrSelectionsBytes(ss[1..]).value;
      PcrThere(b, off, ss[0], others);
      Advance(b, off, first, others);
      ShortListRaises(b, off + |first|, ss[1..], count - 1);
    }
  }

  lemma PcrListOfBytes(b: bytes)
    ensures forall ss: seq<PcrSelection> | PcrListBytes(ss) == Some(b) :: PcrList(b) == Some(SeedPcrs(ss))
  {
    hide PcrList, SeedPcrs, PcrListBytes;
    forall ss: seq<PcrSelection> | PcrListBytes(ss) == Some(b) ensures PcrList(b) == Some(SeedPcrs(ss)) {
      PcrListInverts(ss);
    }
  }

  // ---------------------------------------------------------------------------
  // Sensitive data
  // ---------------------------------------------------------------------------

  datatype SeedSensitive =
    SeedSensitive(size: nat, userAuthSize: nat, userAuth: bytes, dataSize: nat, data: bytes)

  /** _proto_sensitive_create. */
  function ProtoSensitiveCreate(payload: bytes): SeedSensitive {
    var innerSize := IntAt(payload, 0, 2);
    var inner := Slice(payload, 2, 2 + innerSize);
    var userAuthSize := IntAt(inner, 0, 2);
    var userAuth := Slice(inner, 2, 2 + userAuthSize);
    var dataOffset := 2 + userAuthSize;
    var dataSize := IntAt(inner, dataOffset, 2);
    SeedSensitive(innerSize, userAuthSize, userAuth, dataSize,
                  Slice(inner, dataOffset + 2, dataOffset + 2 + dataSize))
  }

  function SeedSensitiveOf(s: SensitiveCreate): SeedSensitive {
    SeedSensitive(4 + |s.userAuth| + |s.data|, |s.userAuth|, s.userAuth, |s.data|, s.data)
  }

  lemma SensitiveInverts(s: SensitiveCreate)
    requires SensitiveCreateBytes(s).Some?
    ensures ProtoSensitiveCreate(SensitiveCreateBytes(s).value) == SeedSensitiveOf(s)
  {
    hide IntAt, Slice, Tpm2bBytes;
    var ua, d := Tpm2bBytes(s.userAuth).value, Tpm2bBytes(s.data).value;
    var b := SensitiveCreateBytes(s).value;
    assert b[0..] == b + [];
    Tpm2bThere(b, 0, ua + d, []);
    var inner := ua + d;
    assert inner[0..] == ua + d;
    Tpm2bThere(inner, 0, s.userAuth, d);
    assert d == d + [];
    Tpm2bThere(inner, 2 + |s.userAuth|, s.data, []);
  }

  // ---------------------------------------------------------------------------
  // Public areas
  // ---------------------------------------------------------------------------

  datatype SeedParms =
    | SeedRsa(symmetric: nat, scheme: nat, keyBits: nat, exponent: nat)
    | SeedKeyedHash(scheme: nat)

  datatype SeedPublic = SeedPublic(
    size: nat, kind: nat, nameAlg: nat, attributes: nat, authPolicySize: nat, authPolicy: bytes,
    parms: SeedParms, unique: bytes)

  /** The bytes after the size of a TPM2B that has been cut out whole. */
  function Payload(field: bytes): bytes {
    Slice(field, 2, |field|)
  }

  /** _proto_public, which reads no scheme hash; other types are not supported. */
  function ProtoPublic(payload: bytes): Option<SeedPublic> {
    var public := Payload(payload);
    var kind := IntAt(public, 0, 2);
    var policySize := IntAt(public, 8, 2);
    var off := 10 + policySize;
    var head := SeedPublic(|public|, kind, IntAt(public, 2, 2), IntAt(public, 4, 4), policySize,
                           Slice(public, 10, 10 + policySize), SeedKeyedHash(0), []);
    if kind == ALG_RSA then
      var symmetric := IntAt(public, off, 2);
      var p := if symmetric == ALG_NULL then off + 2 else off + 6;
      var parms := SeedRsa(symmetric, IntAt(public, p, 2), IntAt(public, p + 2, 2), IntAt(public, p + 4, 4));
      Some(head.(parms := parms, unique := Payload(ParseTpm2b(public, p + 8).field)))
    else if kind == ALG_KEYEDHASH then
      Some(head.(parms := SeedKeyedHash(IntAt(public, off, 2)),
                 unique := Payload(ParseTpm2b(public, off + 2).field)))
    else None
  }

  /** Types other than RSA and KEYEDHASH raise, and no others do. */
  lemma OtherTypesRaise(payload: bytes)
    ensures ProtoPublic(payload).None? <==> IntAt(Slice(payload, 2, |payload|), 0, 2) !in {0x0001, 0x0008}
  {
  }

  /** What of a public area a message can hold: not symmetric key bits and mode, nor a scheme hash. */
  function SeedPublicOf(p: PublicArea): SeedPublic
    requires PublicBytes(p).Some?
  {
    PublicFields(p);
    SeedPublic(|PublicAreaBytes(p).value|, p.kind, p.nameAlg, p.attributes, |p.authPolicy|, p.authPolicy,
               if p.kind == ALG_RSA then
                 SeedRsa(p.rsa.value.symmetric.algorithm, p.rsa.value.scheme, p.rsa.value.keyBits, p.rsa.value.exponent)
               else SeedKeyedHash(KeyedHashOf(p).scheme),
               p.unique)
  }

  lemma PublicFields(p: PublicArea)
    requires PublicBytes(p).Some?
    ensures PublicAreaBytes(p).Some? && ParmsBytes(p).Some? && Tpm2bBytes(p.unique).Some?
    ensures p.kind == ALG_RSA || p.kind == ALG_KEYEDHASH
    ensures 0 <= p.nameAlg && 0 <= p.attributes && |p.authPolicy| < 0x1_0000 && |p.unique| < 0x1_0000
    ensures p.kind == ALG_RSA ==>
              p.rsa.Some? && 0 <= p.rsa.value.symmetric.algorithm < 0x1_0000 && 0 <= p.rsa.value.scheme < 0x1_0000
              && 0 <= p.rsa.value.keyBits < 0x1_0000 && 0 <= p.rsa.value.exponent < 0x1_0000_0000
    ensures p.kind == ALG_KEYEDHASH ==> 0 <= KeyedHashOf(p).scheme < 0x1_0000
  {
    hide ToBytes;
    TwoBytes(|p.authPolicy|);
    TwoBytes(|p.unique|);
    TwoBytes(p.nameAlg);
    FourBytes(p.attributes);
    if p.kind == ALG_RSA {
      TwoBytes(p.rsa.value.symmetric.algorithm);
      TwoBytes(p.rsa.value.scheme);
      TwoBytes(p.rsa.value.keyBits);
      FourBytes(p.rsa.value.exponent);
    } else {
      TwoBytes(KeyedHashOf(p).scheme);
    }
  }

  /** Whether the encoding contains a scheme hash, which the parser does not expect. */
  predicate HashEncoded(p: PublicArea) {
    if p.kind == ALG_RSA then
      p.rsa.Some? && p.rsa.value.scheme != ALG_NULL && p.rsa.value.schemeHash.Some?
    else KeyedHashOf(p).scheme == ALG_HMAC && KeyedHashOf(p).hashAlg.Some?
  }

  /** Bytes that consist of nothing but their own length, over and over. */
  predicate SelfSized(u: bytes) {
    forall i | 0 <= i < |u| :: u[i] == Be16(|u|)[i % 2]
  }

  /** The freak values for which reading a hash as something else does no harm. */
  predicate Coincides(p: PublicArea) {
    SelfSized(p.unique)
    && if p.kind == ALG_RSA then
         && p.rsa.Some? && p.rsa.value.schemeHash.Some?
         && p.rsa.value.schemeHash.value == p.rsa.value.keyBits == |p.unique|
         && p.rsa.value.exponent == 0x1_0001 * p.rsa.value.keyBits
       else KeyedHashOf(p).hashAlg == Some(|p.unique|)
  }

  /** Cutting a TPM2B's own bytes at a wrong size gives its payload only by coincidence. */
  lemma MisreadUnique(u: bytes, size: nat)
    ensures Slice(Be16(|u|) + u, 0, size) == u <==> size == |u| && SelfSized(u)
  {
    var n, s := Be16(|u|), Be16(|u|) + u;
    if size == |u| {
      assert Slice(s, 0, size) == s[..|u|];
      if s[..|u|] == u {
        forall i | 0 <= i < |u| ensures u[i] == n[i % 2] {
          Periodic(u, n, i);
        }
      }
      if SelfSized(u) {
        forall i | 0 <= i < |u| ensures s[..|u|][i] == u[i] {
          if 2 <= i {
            assert s[i] == u[i - 2] && (i - 2) % 2 == i % 2;
          }
        }
      }
    } else {
      assert |Slice(s, 0, size)| == if size < |s| then size else |s|;
    }
  }

  lemma {:induction false} Periodic(u: bytes, n: bytes, i: nat)
    requires |n| == 2 && i < |u| && (n + u)[..|u|] == u
    ensures u[i] == n[i % 2]
  {
    assert u[i] == (n + u)[..|u|][i] == (n + u)[i];
    if 2 <= i {
      Periodic(u, n, i - 2);
    }
  }

  /** Whatever size is written at off, that much of what follows is taken as the payload. */
  lemma PayloadThere(b: bytes, off: nat, size: int, rest: bytes)
    requires ToBytes(size, 2).Some? && At(b, off, ToBytes(size, 2).value, rest)
    ensures Payload(ParseTpm2b(b, off).field) == Slice(rest, 0, size)
  {
    hide IntAt, ToBytes;
    TwoBytes(size);
    IntThere(b, off, size, 2, rest);
    var field := ParseTpm2b(b, off).field;
    var end := if off + 2 + size < |b| then off + 2 + size else |b|;
    assert off + 2 <= |b| && field == b[off..end];
    assert Payload(field) == b[off + 2..end] == b[off + 2..][..end - off - 2];
  }

  /** The fields before the parameters are always read right. */
  lemma PublicHead(p: PublicArea)
    requires PublicBytes(p).Some?
    ensures var b := PublicAreaBytes(p).value;
            && Payload(PublicBytes(p).value) == b
            && IntAt(b, 0, 2) == p.kind && IntAt(b, 2, 2) == p.nameAlg && IntAt(b, 4, 4) == p.attributes
            && IntAt(b, 8, 2) == |p.authPolicy| && Slice(b, 10, 10 + |p.authPolicy|) == p.authPolicy
            && At(b, 10 + |p.authPolicy|, ParmsBytes(p).value, Tpm2bBytes(p.unique).value)
  {
    hide IntAt, ToBytes, ParmsBytes, Tpm2bBytes;
    var b := PublicAreaBytes(p).value;
    var k, n, a, auth := ToBytes(p.kind, 2).value, ToBytes(p.nameAlg, 2).value, ToBytes(p.attributes, 4).value,
                         Tpm2bBytes(p.authPolicy).value;
    var parms, unique := ParmsBytes(p).value, Tpm2bBytes(p.unique).value;
    Regroup5(k, n, a, auth, parms, unique);
    assert b[0..] == b;
    IntThere(b, 0, p.kind, 2, n + (a + (auth + (parms + unique))));
    IntThere(b, 2, p.nameAlg, 2, a + (auth + (parms + unique)));
    IntThere(b, 4, p.attributes, 4, auth + (parms + unique));
    Tpm2bThere(b, 8, p.authPolicy, parms + unique);
    var whole := PublicBytes(p).value;
    assert whole[0..] == whole + [];
    Tpm2bThere(whole, 0, b, []);
    assert Payload(whole) == whole[2..];
  }

  lemma Regroup5(a: bytes, b: bytes, c: bytes, d: bytes, e: bytes, f: bytes)
    ensures a + b + c + d + e + f == a + (b + (c + (d + (e + f))))
  {
  }

  /** After the symmetric definition, of 2 or 6 bytes, comes the scheme. */
  lemma SymmetricThere(b: bytes, off: nat, s: SymDef, rest: bytes)
    requires SymDefBytes(s).Some? && At(b, off, SymDefBytes(s).value, rest)
    ensures IntAt(b, off, 2) == s.algorithm
    ensures var next := if s.algorithm == ALG_NULL then off + 2 else off + 6; next <= |b| && b[next..] == rest
  {
    hide IntAt, ToBytes;
    var alg := ToBytes(s.algorithm, 2).value;
    TwoBytes(s.algorithm);
    if s.algorithm == ALG_NULL {
      IntThere(b, off, s.algorithm, 2, rest);
    } else {
      var keyBits, mode := ToBytes(s.keyBits, 2).value, ToBytes(s.mode, 2).value;
      TwoBytes(s.keyBits);
      TwoBytes(s.mode);
      assert alg + keyBits + mode + rest == alg + (keyBits + mode + rest);
      IntThere(b, off, s.algorithm, 2, keyBits + mode + rest);
      Advance(b, off, alg + keyBits + mode, rest);
    }
  }

  /** What the parser reads after an RSA scheme without a hash. */
  lemma RsaTail(b: bytes, off: nat, p: RsaParms, unique: bytes)
    requires RsaParmsBytes(p).Some? && Tpm2bBytes(unique).Some? && (p.scheme == ALG_NULL || p.schemeHash.None?)
    requires At(b, off, ToBytes(p.scheme, 2).value,
                ToBytes(p.keyBits, 2).value + (ToBytes(p.exponent, 4).value + Tpm2bBytes(unique).value))
    ensures IntAt(b, off, 2) == p.scheme && IntAt(b, off + 2, 2) == p.keyBits && IntAt(b, off + 4, 4) == p.exponent
    ensures Payload(ParseTpm2b(b, off + 8).field) == unique
  {
    hide IntAt, ToBytes, Tpm2bBytes;
    var kb, e, u := ToBytes(p.keyBits, 2).value, ToBytes(p.exponent, 4).value, Tpm2bBytes(unique).value;
    IntThere(b, off, p.scheme, 2, kb + (e + u));
    IntThere(b, off + 2, p.keyBits, 2, e + u);
    IntThere(b, off + 4, p.exponent, 4, u);
    assert u == u + [];
    Tpm2bThere(b, off + 8, unique, []);
    assert Payload(u) == u[2..];
  }

  /** With a hash, every later field is read two bytes early. */
  lemma RsaTailShifted(b: bytes, off: nat, p: RsaParms, unique: bytes)
    requires RsaParmsBytes(p).Some? && Tpm2bBytes(unique).Some? && p.scheme != ALG_NULL && p.schemeHash.Some?
    requires At(b, off, ToBytes(p.scheme, 2).value,
                ToBytes(p.schemeHash.value, 2).value
                + (ToBytes(p.keyBits, 2).value + (ToBytes(p.exponent, 4).value + Tpm2bBytes(unique).value)))
    ensures IntAt(b, off, 2) == p.scheme && IntAt(b, off + 2, 2) == p.schemeHash.value
    ensures IntAt(b, off + 4, 4) == p.keyBits * 0x1_0000 + p.exponent / 0x1_0000
    ensures Payload(ParseTpm2b(b, off + 8).field) == Slice(Be16(|unique|) + unique, 0, p.exponent % 0x1_0000)
  {
    hide IntAt, ToBytes, Be16;
    var h, kb, e := ToBytes(p.schemeHash.value, 2).value, ToBytes(p.keyBits, 2).value, ToBytes(p.exponent, 4).value;
    var u := Tpm2bBytes(unique).value;
    var hi, lo := p.exponent / 0x1_0000, p.exponent % 0x1_0000;
    IntThere(b, off, p.scheme, 2, h + (kb + (e + u)));
    IntThere(b, off + 2, p.schemeHash.value, 2, kb + (e + u));
    TwoBytes(p.keyBits);
    FourBytes(p.exponent);
    ExponentSplits(p.keyBits, p.exponent);
    assert kb + (e + u) == (kb + e) + u;
    assert kb + (e + u) == ToBytes(p.keyBits * 0x1_0000 + hi, 4).value + (ToBytes(lo, 2).value + u);
    IntThere(b, off + 4, p.keyBits * 0x1_0000 + hi, 4, ToBytes(lo, 2).value + u);
    PayloadThere(b, off + 8, lo, u);
    ToBytesStores(|unique|);
  }

  /** Key bits and exponent, cut two bytes later. */
  lemma ExponentSplits(keyBits: int, exponent: int)
    requires 0 <= keyBits < 0x1_0000 && 0 <= exponent < 0x1_0000_0000
    ensures ToBytes(keyBits, 2).Some? && ToBytes(exponent, 4).Some? && ToBytes(exponent % 0x1_0000, 2).Some?
    ensures ToBytes(keyBits * 0x1_0000 + exponent / 0x1_0000, 4).Some?
    ensures ToBytes(keyBits, 2).value + ToBytes(exponent, 4).value
            == ToBytes(keyBits * 0x1_0000 + exponent / 0x1_0000, 4).value + ToBytes(exponent % 0x1_0000, 2).value
  {
    hide ToBytes, Be16;
    var hi, lo := exponent / 0x1_0000, exponent % 0x1_0000;
    ToBytesStores(keyBits);
    ToBytesStores(exponent);
    ToBytesStores(keyBits * 0x1_0000 + hi);
    ToBytesStores(lo);
    Halves(keyBits, hi);
    Halves(hi, lo);
    assert exponent == hi * 0x1_0000 + lo;
  }

  /** What is read of an RSA area: the head is right, and the rest is what lies behind the symmetric definition. */
  lemma RsaParsed(p: PublicArea)
    requires PublicBytes(p).Some? && p.kind == ALG_RSA
    ensures PublicAreaBytes(p).Some? && ParmsBytes(p).Some? && p.rsa.Some?
    ensures var b, off := PublicAreaBytes(p).value, 10 + |p.authPolicy|;
            var alg := IntAt(b, off, 2);
            var next := if alg == ALG_NULL then off + 2 else off + 6;
            && 0 <= p.nameAlg && 0 <= p.attributes
            && ProtoPublic(PublicBytes(p).value) ==
               Some(SeedPublic(|b|, ALG_RSA, p.nameAlg, p.attributes, |p.authPolicy|, p.authPolicy,
                               SeedRsa(alg, IntAt(b, next, 2), IntAt(b, next + 2, 2), IntAt(b, next + 4, 4)),
                               Payload(ParseTpm2b(b, next + 8).field)))
  {
    hide IntAt, ToBytes, Payload, ParseTpm2b, PublicAreaBytes, PublicBytes, ParmsBytes, Slice;
    PublicFields(p);
    PublicHead(p);
  }

  lemma RsaInverse(p: PublicArea)
    requires PublicBytes(p).Some? && p.kind == ALG_RSA
    ensures ProtoPublic(PublicBytes(p).value).Some?
    ensures ProtoPublic(PublicBytes(p).value) == Some(SeedPublicOf(p)) <==> !HashEncoded(p) || Coincides(p)
  {
    hide IntAt, ToBytes, Be16, Payload, ParseTpm2b, Tpm2bBytes, PublicAreaBytes, SelfSized, SymDefBytes,
         PublicBytes, ProtoPublic;
    PublicFields(p);
    PublicHead(p);
    RsaParsed(p);
    var b, off, rsa := PublicAreaBytes(p).value, 10 + |p.authPolicy|, p.rsa.value;
    var sym, scheme := SymDefBytes(rsa.symmetric).value, ToBytes(rsa.scheme, 2).value;
    var kb, e, u := ToBytes(rsa.keyBits, 2).value, ToBytes(rsa.exponent, 4).value, Tpm2bBytes(p.unique).value;
    var next := if rsa.symmetric.algorithm == ALG_NULL then off + 2 else off + 6;
    if HashEncoded(p) {
      var h := ToBytes(rsa.schemeHash.value, 2).value;
      Regroup4(sym, scheme + h, kb, e, u);
      assert scheme + h + (kb + (e + u)) == scheme + (h + (kb + (e + u)));
      SymmetricThere(b, off, rsa.symmetric, scheme + (h + (kb + (e + u))));
      RsaTailShifted(b, next, rsa, p.unique);
      MisreadUnique(p.unique, rsa.exponent % 0x1_0000);
    } else {
      assert scheme + [] == scheme;
      Regroup4(sym, scheme, kb, e, u);
      SymmetricThere(b, off, rsa.symmetric, scheme + (kb + (e + u)));
      RsaTail(b, next, rsa, p.unique);
    }
  }

  lemma KeyedHashInverse(p: PublicArea)
    requires PublicBytes(p).Some? && p.kind == ALG_KEYEDHASH
    ensures ProtoPublic(PublicBytes(p).value).Some?
    ensures ProtoPublic(PublicBytes(p).value) == Some(SeedPublicOf(p)) <==> !HashEncoded(p) || Coincides(p)
  {
    hide IntAt, ToBytes, Be16, Payload, ParseTpm2b, PublicAreaBytes, SelfSized, PublicBytes;
    PublicFields(p);
    PublicHead(p);
    var b, off, kh := PublicAreaBytes(p).value, 10 + |p.authPolicy|, KeyedHashOf(p);
    var scheme, u := ToBytes(kh.scheme, 2).value, Tpm2bBytes(p.unique).value;
    ToBytesStores(|p.unique|);
    if HashEncoded(p) {
      var h := ToBytes(kh.hashAlg.value, 2).value;
      TwoBytes(kh.hashAlg.value);
      assert scheme + h + u == scheme + (h + u);
      IntThere(b, off, kh.scheme, 2, h + u);
      PayloadThere(b, off + 2, kh.hashAlg.value, u);
      MisreadUnique(p.unique, kh.hashAlg.value);
    } else {
      var size := ToBytes(|p.unique|, 2).value;
      assert scheme + [] == scheme;
      IntThere(b, off, kh.scheme, 2, u);
      PayloadThere(b, off + 2, |p.unique|, p.unique);
      assert Slice(p.unique, 0, |p.unique|) == p.unique;
    }
  }

  /**
    _proto_public inverts TPM2B_PUBLIC.to_bytes exactly when no scheme hash is
    encoded, or when the unique field repeats its own length and the hash id (and
    for RSA key bits and exponent too) happens to match it.
   */
  lemma PublicInvertsExactly(p: PublicArea)
    requires PublicBytes(p).Some?
    ensures ProtoPublic(PublicBytes(p).value) == Some(SeedPublicOf(p)) <==> !HashEncoded(p) || Coincides(p)
  {
    PublicFields(p);
    if p.kind == ALG_RSA {
      RsaInverse(p);
    } else {
      KeyedHashInverse(p);
    }
  }

  /** The generator's own HMAC key template, with an empty unique field, does not survive. */
  lemma HmacKeyIsMisread(p: PublicArea)
    requires PublicBytes(p).Some? && p.kind == ALG_KEYEDHASH && p.unique == []
    requires KeyedHashOf(p) == KeyedHashParms(ALG_HMAC, Some(ALG_SHA256))
    ensures ProtoPublic(PublicBytes(p).value).Some?
    ensures ProtoPublic(PublicBytes(p).value).value == SeedPublicOf(p).(unique := [0, 0])
  {
    hide IntAt, ToBytes, Payload, ParseTpm2b, PublicAreaBytes, PublicBytes;
    PublicFields(p);
    PublicHead(p);
    var b, off, kh := PublicAreaBytes(p).value, 10 + |p.authPolicy|, KeyedHashOf(p);
    var scheme, h, u := ToBytes(kh.scheme, 2).value, ToBytes(kh.hashAlg.value, 2).value, Tpm2bBytes(p.unique).value;
    ToBytesStores(0);
    assert scheme + h + u == scheme + (h + u);
    IntThere(b, off, kh.scheme, 2, h + u);
    PayloadThere(b, off + 2, kh.hashAlg.value, u);
    assert u == [0, 0] && Slice(u, 0, 11) == u;
  }
}
