/**
  The byte-level vocabulary every other module rests on: bytes, big-endian
  integers, TPM2B fields, and the stores and copies the C++ code performs on a
  buffer.
 */
module Bytes {

  type byte = x: int | 0 <= x < 0x100
  type bytes = seq<byte>
  type u16 = x: int | 0 <= x < 0x1_0000
  type u32 = x: int | 0 <= x < 0x1_0000_0000

  datatype Option<+T> = None | Some(value: T) {
    predicate IsFailure() { None? }

    function PropagateFailure<U>(): Option<U>
      requires None?
    {
      None
    }

    function Extract(): T
      requires Some?
    {
      value
    }
  }

  // ---------------------------------------------------------------------------
  // Big-endian integers
  // ---------------------------------------------------------------------------

  /** The two bytes a 16-bit store leaves behind; wider values are truncated. */
  function Be16(v: int): (b: bytes)
    ensures |b| == 2
  {
    [v / 0x100 % 0x100, v % 0x100]
  }

  /** The four bytes a 32-bit store leaves behind; wider values are truncated. */
  function Be32(v: int): (b: bytes)
    ensures |b| == 4
  {
    Be16(v / 0x1_0000) + Be16(v)
  }

  function Read16(b: bytes, off: nat): (v: nat)
    requires off + 2 <= |b|
    ensures v < 0x1_0000
  {
    b[off] as int * 0x100 + b[off + 1] as int
  }

  function Read32(b: bytes, off: nat): (v: nat)
    requires off + 4 <= |b|
    ensures v < 0x1_0000_0000
  {
    Read16(b, off) * 0x1_0000 + Read16(b, off + 2)
  }

  lemma ByteOrder16(a: byte, b: byte)
    ensures Be16(a * 0x100 + b) == [a, b]
  {
  }

  /** The most significant byte comes first, in stores and in reads. */
  lemma ByteOrder(a: byte, b: byte, c: byte, d: byte)
    ensures Be16(a * 0x100 + b) == [a, b] && Read16([a, b], 0) == a * 0x100 + b
    ensures Be32(a * 0x100_0000 + b * 0x1_0000 + c * 0x100 + d) == [a, b, c, d]
    ensures Read32([a, b, c, d], 0) == a * 0x100_0000 + b * 0x1_0000 + c * 0x100 + d
  {
    hide Be16;
    ByteOrder16(a, b);
    ByteOrder16(c, d);
    var hi, lo := a * 0x100 + b, c * 0x100 + d;
    assert a * 0x100_0000 + b * 0x1_0000 + c * 0x100 + d == hi * 0x1_0000 + lo;
    Halves(hi, lo);
  }

  lemma Read16Stored(b: bytes, off: nat, v: int)
    requires off + 2 <= |b| && b[off..off + 2] == Be16(v)
    ensures Read16(b, off) == v % 0x1_0000
  {
    assert b[off] == b[off..off + 2][0] && b[off + 1] == b[off..off + 2][1];
  }

  lemma Read32Stored(b: bytes, off: nat, v: int)
    requires off + 4 <= |b| && b[off..off + 4] == Be32(v)
    ensures Read32(b, off) == v % 0x1_0000_0000
  {
    hide Be16, Read16;
    assert b[off..off + 2] == b[off..off + 4][..2] == Be16(v / 0x1_0000);
    assert b[off + 2..off + 4] == b[off..off + 4][2..] == Be16(v);
    Read16Stored(b, off, v / 0x1_0000);
    Read16Stored(b, off + 2, v);
  }

  lemma Be16OfRead16(b: bytes, off: nat)
    requires off + 2 <= |b|
    ensures Be16(Read16(b, off)) == b[off..off + 2]
  {
  }

  lemma Halves(hi: nat, lo: nat)
    requires lo < 0x1_0000
    ensures (hi * 0x1_0000 + lo) / 0x1_0000 == hi && Be16(hi * 0x1_0000 + lo) == Be16(lo)
  {
    var v, q, r := hi * 0x1_0000 + lo, lo / 0x100, lo % 0x100;
    assert v == (hi * 0x100 + q) * 0x100 + r;
    assert v / 0x100 == hi * 0x100 + q && v % 0x100 == r;
    assert (hi * 0x100 + q) % 0x100 == q;
  }

  lemma Be32OfRead32(b: bytes, off: nat)
    requires off + 4 <= |b|
    ensures Be32(Read32(b, off)) == b[off..off + 4]
  {
    hide Read16, Be16;
    Halves(Read16(b, off), Read16(b, off + 2));
    Be16OfRead16(b, off);
    Be16OfRead16(b, off + 2);
    assert b[off..off + 4] == b[off..off + 2] + b[off + 2..off + 4];
  }

  /** Reading depends only on the bytes read. */
  lemma ReadSame16(a: bytes, i: nat, b: bytes, j: nat)
    requires i + 2 <= |a| && j + 2 <= |b|
    requires a[i..i + 2] == b[j..j + 2]
    ensures Read16(a, i) == Read16(b, j)
  {
    assert a[i] == a[i..i + 2][0] && a[i + 1] == a[i..i + 2][1];
    assert b[j] == b[j..j + 2][0] && b[j + 1] == b[j..j + 2][1];
  }

  lemma ReadSame32(a: bytes, i: nat, b: bytes, j: nat)
    requires i + 4 <= |a| && j + 4 <= |b|
    requires a[i..i + 4] == b[j..j + 4]
    ensures Read32(a, i) == Read32(b, j)
  {
    assert a[i..i + 2] == a[i..i + 4][..2] == b[j..j + 4][..2] == b[j..j + 2];
    assert a[i + 2..i + 4] == a[i..i + 4][2..] == b[j..j + 4][2..] == b[j + 2..j + 4];
    ReadSame16(a, i, b, j);
    ReadSame16(a, i + 2, b, j + 2);
  }

  /** Where the parts of a concatenation lie. */
  lemma Parts2(a: bytes, b: bytes)
    ensures (a + b)[..|a|] == a && (a + b)[|a|..] == b
  {
  }

  lemma Parts3(a: bytes, b: bytes, c: bytes)
    ensures var s := a + b + c;
            s[..|a|] == a && s[|a|..|a| + |b|] == b && s[|a| + |b|..] == c
  {
  }

  lemma Parts4(a: bytes, b: bytes, c: bytes, d: bytes)
    ensures var s := a + b + c + d;
            && s[..|a|] == a && s[|a|..|a| + |b|] == b
            && s[|a| + |b|..|a| + |b| + |c|] == c && s[|a| + |b| + |c|..] == d
  {
  }

  lemma Regroup4(a: bytes, b: bytes, c: bytes, d: bytes, e: bytes)
    ensures a + b + c + d + e == a + (b + (c + (d + e)))
  {
  }

  /** A slice of a slice. */
  lemma Inner(b: bytes, lo: nat, hi: nat, i: nat, j: nat)
    requires lo <= hi <= |b| && i <= j <= hi - lo
    ensures b[lo..hi][i..j] == b[lo + i..lo + j]
  {
    var s, t := b[lo..hi][i..j], b[lo + i..lo + j];
    assert forall k | 0 <= k < j - i :: s[k] == b[lo..hi][i + k] == b[lo + i + k] == t[k];
  }

  /** A sequence is the concatenation of its pieces. */
  lemma Cuts(b: bytes, i: nat, j: nat, k: nat)
    requires i <= j <= k <= |b|
    ensures b == b[..i] + b[i..j] + b[j..k] + b[k..]
  {
  }

  // ---------------------------------------------------------------------------
  // TPM2B fields: a 16-bit size followed by that many bytes
  // ---------------------------------------------------------------------------

  function Tpm2b(payload: bytes): bytes {
    Be16(|payload|) + payload
  }

  datatype Field = Field(payload: bytes, rest: bytes)

  /** Splits a TPM2B off the front, if one fits. */
  function TakeTpm2b(b: bytes): (r: Option<Field>)
    ensures r.Some? ==> b == Tpm2b(r.value.payload) + r.value.rest && |r.value.payload| < 0x1_0000
  {
    if |b| < 2 || 2 + Read16(b, 0) > |b| then None
    else
      var n := Read16(b, 0);
      Be16OfRead16(b, 0);
      assert b == b[0..2] + b[2..2 + n] + b[2 + n..];
      Some(Field(b[2..2 + n], b[2 + n..]))
  }

  lemma TakeTpm2bOfTpm2b(payload: bytes, rest: bytes)
    requires |payload| < 0x1_0000
    ensures TakeTpm2b(Tpm2b(payload) + rest) == Some(Field(payload, rest))
  {
    var b := Tpm2b(payload) + rest;
    Parts3(Be16(|payload|), payload, rest);
    Read16Stored(b, 0, |payload|);
  }

  // ---------------------------------------------------------------------------
  // Stores and copies
  // ---------------------------------------------------------------------------

  /** s with the bytes from off on replaced by b. */
  function Overwrite(s: bytes, off: nat, b: bytes): (r: bytes)
    requires off + |b| <= |s|
    ensures |r| == |s|
  {
    s[..off] + b + s[off + |b|..]
  }

  /** Two adjacent stores, in either order, are one store. */
  lemma OverwriteAdjacent(s: bytes, off: nat, a: bytes, b: bytes)
    requires off + |a| + |b| <= |s|
    ensures Overwrite(Overwrite(s, off, a), off + |a|, b) == Overwrite(s, off, a + b)
    ensures Overwrite(Overwrite(s, off + |a|, b), off, a) == Overwrite(s, off, a + b)
  {
  }

  /** Storing what is already there changes nothing. */
  lemma OverwriteSame(s: bytes, off: nat, n: nat)
    requires off + n <= |s|
    ensures Overwrite(s, off, s[off..off + n]) == s
  {
  }

  lemma OverwriteFront(s: bytes, b: bytes)
    requires |b| <= |s|
    ensures Overwrite(s, 0, b)[..|b|] == b
  {
  }

  method Write8(buf: array<byte>, off: nat, v: byte)
    requires off < buf.Length
    modifies buf
    ensures buf[..] == Overwrite(old(buf[..]), off, [v])
  {
    buf[off] := v;
  }

  method Write16(buf: array<byte>, off: nat, v: int)
    requires off + 2 <= buf.Length
    modifies buf
    ensures buf[..] == Overwrite(old(buf[..]), off, Be16(v))
  {
    buf[off] := v / 0x100 % 0x100;
    buf[off + 1] := v % 0x100;
  }

  method Write32(buf: array<byte>, off: nat, v: int)
    requires off + 4 <= buf.Length
    modifies buf
    ensures buf[..] == Overwrite(old(buf[..]), off, Be32(v))
  {
    buf[off] := v / 0x100_0000 % 0x100;
    buf[off + 1] := v / 0x1_0000 % 0x100;
    buf[off + 2] := v / 0x100 % 0x100;
    buf[off + 3] := v % 0x100;
  }

  /** memcpy from memory that does not overlap the destination. */
  method Memcpy(buf: array<byte>, off: nat, src: bytes)
    requires off + |src| <= buf.Length
    modifies buf
    ensures buf[..] == Overwrite(old(buf[..]), off, src)
  {
    forall i | 0 <= i < |src| {
      buf[off + i] := src[i];
    }
  }

  /** memset to zero. */
  method Memzero(buf: array<byte>)
    modifies buf
  {
    forall i | 0 <= i < buf.Length {
      buf[i] := 0;
    }
  }

  /** memmove within one buffer: source and destination may overlap. */
  method Memmove(buf: array<byte>, dst: nat, src: nat, n: nat)
    requires dst + n <= buf.Length && src + n <= buf.Length
    modifies buf
    ensures buf[..] == Overwrite(old(buf[..]), dst, old(buf[src..src + n]))
  {
    forall i | 0 <= i < n {
      buf[dst + i] := buf[src + i];
    }
  }
}
