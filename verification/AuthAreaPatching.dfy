/** Rewriting an authorization area in place (PatchAuthArea in src/harness/session_auth.cc). */
module AuthAreaPatching {
  import opened Bytes
  import opened CommandLayout
  import opened SessionLayer

  const NEW_HMAC_SIZE := 32

  /** What is written over the old nonce, attributes and HMAC. */
  function Rewritten(nonceCaller: bytes, attributes: byte, hmac: bytes): (b: bytes)
    ensures |b| == 5 + |nonceCaller| + |hmac|
  {
    Tpm2b(nonceCaller) + [attributes] + Tpm2b(hmac)
  }

  function Zeros(n: nat): (b: bytes)
    ensures |b| == n
  {
    Filled(n, 0)
  }

  lemma ZerosSnoc(n: nat)
    ensures Zeros(n) + [0] == Zeros(n + 1)
  {
  }

  /** Writes nonce, attributes and HMAC at w, then zeros up to padTo. */
  method WriteEntry(buf: array<byte>, start: nat, nonceCaller: bytes, attributes: byte, hmac: Digest, padTo: nat)
    requires |nonceCaller| == NONCE_CALLER_SIZE
    requires start + 5 + NONCE_CALLER_SIZE + NEW_HMAC_SIZE <= padTo <= buf.Length
    modifies buf
    ensures buf[..] == Overwrite(old(buf[..]), start,
                                 Rewritten(nonceCaller, attributes, hmac)
                                 + Zeros(padTo - start - 5 - NONCE_CALLER_SIZE - NEW_HMAC_SIZE))
  {
    hide Be16, Zeros, Overwrite;
    ghost var s := buf[..];
    var w := start;
    Write16(buf, w, |nonceCaller|);
    w := w + 2;
    Memcpy(buf, w, nonceCaller);
    w := w + |nonceCaller|;
    OverwriteAdjacent(s, start, Be16(|nonceCaller|), nonceCaller);
    Write8(buf, w, attributes);
    w := w + 1;
    OverwriteAdjacent(s, start, Tpm2b(nonceCaller), [attributes]);
    Write16(buf, w, NEW_HMAC_SIZE);
    w := w + 2;
    OverwriteAdjacent(s, start, Tpm2b(nonceCaller) + [attributes], Be16(NEW_HMAC_SIZE));
    Memcpy(buf, w, hmac);
    w := w + NEW_HMAC_SIZE;
    OverwriteAdjacent(s, start, Tpm2b(nonceCaller) + [attributes] + Be16(NEW_HMAC_SIZE), hmac);
    assert Tpm2b(nonceCaller) + [attributes] + Be16(NEW_HMAC_SIZE) + hmac == Rewritten(nonceCaller, attributes, hmac);
    ghost var entry, first := Rewritten(nonceCaller, attributes, hmac), w;
    assert Zeros(0) == [] && entry + Zeros(0) == entry;
    while w < padTo
      invariant first <= w <= padTo
      invariant buf[..] == Overwrite(s, start, entry + Zeros(w - first))
    {
      Write8(buf, w, 0);
      OverwriteAdjacent(s, start, entry + Zeros(w - first), [0]);
      ZerosSnoc(w - first);
      assert entry + Zeros(w - first) + [0] == entry + Zeros(w - first + 1);
      w := w + 1;
    }
  }

  /** The patched buffer, from the stores that made it. */
  lemma StoresMakeSplice(s: bytes, aso: nat, entry: bytes, params: bytes, size: nat)
    requires 10 <= aso && size == aso + 8 + |entry| + |params| <= |s|
    ensures var t := Overwrite(Overwrite(s, aso + 8 + |entry|, params), aso + 8, entry);
            var u := Overwrite(Overwrite(t, aso, Be32(4 + |entry|)), 2, Be32(size));
            && u[..size] == Header(Read16(s, 0), size, Read32(s, 6)) + s[10..aso]
                            + (Be32(4 + |entry|) + s[aso + 4..aso + 8] + entry) + params
            && u[size..] == s[size..]
  {
    hide Be16, Be32, Read16, Read32, Overwrite;
    OverwriteAdjacent(s, aso + 8, entry, params);
    var t := Overwrite(s, aso + 8, entry + params);
    var u := Overwrite(Overwrite(t, aso, Be32(4 + |entry|)), 2, Be32(size));
    Be16OfRead16(s, 0);
    Be32OfRead32(s, 6);
    TwoStores(t, aso, Be32(4 + |entry|), Be32(size));
    OverwriteKeeps(s, aso + 8, entry + params);
    assert t[0..2] == s[0..2] && t[aso + 4..aso + 8] == s[aso + 4..aso + 8] && t[6..aso] == s[6..aso];
    assert s[6..aso] == s[6..10] + s[10..aso];
    Regroup(s[0..2], Be32(size), s[6..10], s[10..aso], Be32(4 + |entry|), s[aso + 4..aso + 8], entry, params,
            s[size..]);
  }

  /** What comes before an overwritten part, and what comes from there on. */
  lemma OverwriteKeeps(s: bytes, off: nat, b: bytes)
    requires off + |b| <= |s|
    ensures forall i, j | 0 <= i <= j <= off :: Overwrite(s, off, b)[i..j] == s[i..j]
    ensures Overwrite(s, off, b)[off..] == b + s[off + |b|..]
  {
  }

  lemma Regroup(a: bytes, b: bytes, c: bytes, d: bytes, e: bytes, f: bytes, g: bytes, h: bytes, i: bytes)
    ensures var u := a + b + (c + d) + e + f + ((g + h) + i);
            var v := (a + b + c) + d + (e + f + g) + h;
            u == v + i && u[..|v|] == v && u[|v|..] == i
  {
    var u, v := a + b + (c + d) + e + f + ((g + h) + i), (a + b + c) + d + (e + f + g) + h;
    assert u == v + i;
    Parts2(v, i);
  }

  lemma TwoStores(t: bytes, aso: nat, a: bytes, b: bytes)
    requires |a| == |b| == 4 && 6 <= aso && aso + 8 <= |t|
    ensures Overwrite(Overwrite(t, aso, a), 2, b)
            == t[0..2] + b + t[6..aso] + a + t[aso + 4..aso + 8] + t[aso + 8..]
  {
  }

  /**
    Shifts the parameters, rewrites nonce, attributes and HMAC, and fixes the two
    size fields. Growing and shrinking are the same splice, zero-padded when the
    old entry did not fill its area; a buffer too small is left alone. Bytes past
    the returned size are never touched.
   */
  method PatchAuthArea(buf: array<byte>, capacity: nat, commandSize: nat, nonceOff: nat, origNonceSize: nat,
                       origHmacSize: nat, attributes: byte, authSizeOff: nat, authSize: nat, nonceCaller: bytes,
                       hmac: Digest)
    returns (newSize: nat)
    requires |nonceCaller| == NONCE_CALLER_SIZE
    requires 10 <= authSizeOff && nonceOff == authSizeOff + 8 && 9 + origNonceSize + origHmacSize <= authSize
    requires authSizeOff + 4 + authSize <= commandSize <= capacity <= buf.Length
    modifies buf
    ensures var s, grown := old(buf[..]), commandSize + 48 - origNonceSize - origHmacSize;
            var area := s[authSizeOff + 4..authSizeOff + 8] + Rewritten(nonceCaller, attributes, hmac)
                        + Zeros(authSize - 9 - origNonceSize - origHmacSize);
            if grown > capacity then newSize == commandSize && buf[..] == s
            else
              && newSize == grown && newSize <= buf.Length && buf[newSize..] == s[newSize..]
              && buf[..newSize] == Header(Read16(s, 0), newSize, Read32(s, 6)) + s[10..authSizeOff]
                                   + Sized(area) + s[authSizeOff + 4 + authSize..commandSize]
  {
    hide Be16, Be32, Read16, Read32, Zeros, Overwrite, Rewritten;
    ghost var s := buf[..];
    var cpOff := authSizeOff + 4 + authSize;
    var cpSize := commandSize - cpOff;
    var newNonceField := 2 + |nonceCaller|;
    var newHmacField := 2 + NEW_HMAC_SIZE;
    var oldNonceField := 2 + origNonceSize;
    var oldHmacField := 2 + origHmacSize;
    var delta: int := (newNonceField + newHmacField) - (oldNonceField + oldHmacField);
    var newCommandSize := commandSize + delta;
    if newCommandSize > capacity {
      return commandSize;
    }
    var newCpOff := cpOff + delta;
    ghost var params := s[cpOff..commandSize];
    if cpSize != 0 && newCpOff != cpOff {
      Memmove(buf, newCpOff, cpOff, cpSize);
    } else {
      OverwriteSame(s, newCpOff, cpSize);
      assert params == s[newCpOff..newCpOff + cpSize];
    }
    assert buf[..] == Overwrite(s, newCpOff, params);
    WriteEntry(buf, nonceOff, nonceCaller, attributes, hmac, newCpOff);
    ghost var entry := Rewritten(nonceCaller, attributes, hmac) + Zeros(authSize - 9 - origNonceSize - origHmacSize);
    Write32(buf, authSizeOff, authSize + delta);
    Write32(buf, 2, newCommandSize);
    StoresMakeSplice(s, authSizeOff, entry, params, newCommandSize);
    ghost var area := s[authSizeOff + 4..authSizeOff + 8] + Rewritten(nonceCaller, attributes, hmac)
                      + Zeros(authSize - 9 - origNonceSize - origHmacSize);
    assert area == s[authSizeOff + 4..authSizeOff + 8] + entry;
    assert Sized(area) == Be32(4 + |entry|) + s[authSizeOff + 4..authSizeOff + 8] + entry;
    newSize := newCommandSize;
  }
}
