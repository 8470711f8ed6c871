/** What patching does to a command's bytes, stated apart from how the buffer is rewritten. */
module PatchTheory {
  import opened Bytes
  import opened CommandAttributes
  import opened CommandLayout
  import opened Names
  import opened SessionLayer

  // ---------------------------------------------------------------------------
  // Single-entry authorization areas
  // ---------------------------------------------------------------------------

  /** The area is exactly one entry, judged by its length fields alone. */
  predicate IsSoleEntry(area: bytes) {
    && 6 <= |area|
    && 9 + Read16(area, 4) <= |area|
    && 9 + Read16(area, 4) + Read16(area, 7 + Read16(area, 4)) == |area|
  }

  function SoleEntry(area: bytes): AuthEntry
    requires IsSoleEntry(area)
  {
    var n := Read16(area, 4);
    AuthEntry(Read32(area, 0), area[6..6 + n], area[6 + n], area[9 + n..])
  }

  lemma TakeTpm2bAt(b: bytes, off: nat)
    requires off <= |b|
    ensures TakeTpm2b(b[off..]) ==
            if off + 2 > |b| || off + 2 + Read16(b, off) > |b| then None
            else Some(Field(b[off + 2..off + 2 + Read16(b, off)], b[off + 2 + Read16(b, off)..]))
  {
    var t := b[off..];
    if off + 2 <= |b| {
      assert t[0..2] == b[off..off + 2];
      ReadSame16(t, 0, b, off);
      var n := Read16(b, off);
      if off + 2 + n <= |b| {
        assert t == b[off..|b|];
        Inner(b, off, |b|, 2, 2 + n);
        assert t[2 + n..] == b[off + 2 + n..];
      }
    }
  }

  /** Parsing finds one entry exactly when the length fields say there is one. */
  lemma SoleEntryIsParse(area: bytes)
    ensures IsSoleEntry(area) ==> ParseEntries(area) == Some([SoleEntry(area)])
    ensures !IsSoleEntry(area) ==> (ParseEntries(area).Some? ==> |ParseEntries(area).value| != 1)
  {
    hide Be16, Be32, Read16, Read32, TakeTpm2b;
    if 4 <= |area| {
      TakeTpm2bAt(area, 4);
      if 6 <= |area| && 7 + Read16(area, 4) <= |area| {
        var n := Read16(area, 4);
        assert area[6 + n..][1..] == area[7 + n..];
        TakeTpm2bAt(area, 7 + n);
        assert area[6 + n..][0] == area[6 + n];
        if IsSoleEntry(area) {
          assert area[9 + n + Read16(area, 7 + n)..] == [];
          assert area[9 + n..9 + n + Read16(area, 7 + n)] == area[9 + n..];
          assert ParseEntry(area) == Some(ParsedEntry(SoleEntry(area), []));
          assert ParseEntries([]) == Some([]) && [SoleEntry(area)] + [] == [SoleEntry(area)];
        }
      }
    }
  }

  // ---------------------------------------------------------------------------
  // The patched command
  // ---------------------------------------------------------------------------

  lemma EncodeOneEntry(e: AuthEntry)
    ensures EncodeEntries([e]) == EncodeEntry(e)
  {
    assert EncodeEntries([e]) == EncodeEntry(e) + EncodeEntries([e][1..]);
  }

  lemma AuthorizedWellFormed(crypto: Crypto, l: Layer, c: Command)
    requires c.WellFormed() && |c.auth| == 1 && NamesOf(l.names, c.handles).Some?
    ensures var d := Authorized(crypto, l, c);
            && |EncodeEntries(d.auth)| == 57
            && CommandSize(d) == CommandSize(c) + 48 - |c.auth[0].nonce| - |c.auth[0].hmac|
            && (CommandSize(d) < 0x1_0000_0000 ==> d.WellFormed())
  {
    EncodeOneEntry(Authorized(crypto, l, c).auth[0]);
    EncodeOneEntry(c.auth[0]);
    assert c.auth == [c.auth[0]];
  }

  /**
    A patched command is a splice of the original: its header with the new size,
    its handles, an authorization of 57 bytes, and its parameters. Whether that
    grows or shrinks the command depends on the nonce and HMAC it replaces.
   */
  lemma PatchedIsSplice(crypto: Crypto, l: Layer, cmd: bytes, capacity: nat)
    requires Patches(crypto, l, cmd, capacity)
    ensures var n, c := HandleCount(Read32(cmd, 6)), Target(l, cmd).value;
            var size := |cmd| + 48 - |c.auth[0].nonce| - |c.auth[0].hmac|;
            && 14 + 4 * n + Read32(cmd, 10 + 4 * n) <= |cmd|
            && |Patched(crypto, l, cmd, capacity)| == size
            && Patched(crypto, l, cmd, capacity)
               == Header(Read16(cmd, 0), size, Read32(cmd, 6)) + cmd[10..10 + 4 * n]
                  + Sized(EncodeEntry(Authorized(crypto, l, c).auth[0]))
                  + cmd[14 + 4 * n + Read32(cmd, 10 + 4 * n)..]
  {
    hide Be16, Be32, Read16, Read32, Header, ParseEntries;
    var n, c := HandleCount(Read32(cmd, 6)), Target(l, cmd).value;
    EncodeOfParseCommand(cmd, n);
    AuthorizedWellFormed(crypto, l, c);
    EncodeOneEntry(Authorized(crypto, l, c).auth[0]);
    ParsedFields(cmd, n);
  }

  lemma ParsedFields(cmd: bytes, n: nat)
    requires ParseCommand(cmd, n).Some?
    ensures var c := ParseCommand(cmd, n).value;
            && c.tag == Read16(cmd, 0) && c.code == Read32(cmd, 6)
            && HandleBytes(c.handles) == cmd[10..10 + 4 * n]
            && c.params == cmd[14 + 4 * n + Read32(cmd, 10 + 4 * n)..]
  {
  }

  /**
    The patched command byte by byte: size, area size 57, the session handle as it was,
    a nonce of sixteen 0xAA, the attributes as they were, a 32-byte HMAC, and the
    parameters as they were.
   */
  lemma PatchedBytes(crypto: Crypto, l: Layer, cmd: bytes, capacity: nat)
    requires Patches(crypto, l, cmd, capacity)
    ensures var n, c := HandleCount(Read32(cmd, 6)), Target(l, cmd).value;
            var e, fill := c.auth[0], seq(16, i => 0xAA);
            var pHash := crypto.sha256(Be32(c.code) + NamesOf(l.names, c.handles).value + c.params);
            Patched(crypto, l, cmd, capacity) ==
              Be16(Read16(cmd, 0)) + Be32(71 + 4 * n + |c.params|) + Be32(Read32(cmd, 6)) + cmd[10..10 + 4 * n]
              + ([0, 0, 0, 57]
                 + (Be32(e.handle) + ([0, 16] + fill) + [e.attributes]
                    + ([0, 32] + crypto.hmac(l.sessionKey, pHash + fill + l.nonceTpm + [e.attributes]))))
              + c.params
  {
    hide Be32, Read16, Read32, ParseEntries, NamesOf, ParseCommand, EncodeCommand, EncodeEntries, Patched, HandleBytes;
    var n, c := HandleCount(Read32(cmd, 6)), Target(l, cmd).value;
    PatchedIsSplice(crypto, l, cmd, capacity);
    ParsedFields(cmd, n);
    EncodeOfParseCommand(cmd, n);
    AuthorizedWellFormed(crypto, l, c);
    assert NONCE_CALLER == seq(16, i => 0xAA);
    assert Be16(16) == [0, 16] && Be16(32) == [0, 32];
    assert Be32(57) == [0, 0, 0, 57] by { ByteOrder(0, 0, 0, 57); }
    EncodeOneEntry(c.auth[0]);
    assert c.auth == [c.auth[0]];
  }

  /** Patching grows a command by at most 48 bytes, so 64 spare bytes are always enough. */
  lemma HeadroomSuffices(crypto: Crypto, l: Layer, cmd: bytes, capacity: nat)
    ensures |Patched(crypto, l, cmd, capacity)| <= |cmd| + 48
    ensures Framed(cmd, capacity) && |cmd| + 48 <= capacity ==>
              (Patches(crypto, l, cmd, capacity) <==> Target(l, cmd).Some?)
  {
    if Framed(cmd, capacity) && Target(l, cmd).Some? {
      EncodeOfParseCommand(cmd, HandleCount(Read32(cmd, 6)));
      AuthorizedWellFormed(crypto, l, Target(l, cmd).value);
    }
  }

  /** A patched command is again a target, and parses to the authorized command. */
  lemma PatchedParses(crypto: Crypto, l: Layer, cmd: bytes, capacity: nat)
    requires Patches(crypto, l, cmd, capacity) && capacity < 0x1_0000_0000
    ensures var out, d := Patched(crypto, l, cmd, capacity), Authorized(crypto, l, Target(l, cmd).value);
            && Framed(out, capacity) && Read32(out, 6) == Read32(cmd, 6) && d.WellFormed()
            && ParseCommand(out, HandleCount(Read32(out, 6))) == Some(d) && Target(l, out) == Some(d)
  {
    var c := Target(l, cmd).value;
    EncodeOfParseCommand(cmd, HandleCount(Read32(cmd, 6)));
    AuthorizedWellFormed(crypto, l, c);
    var d := Authorized(crypto, l, c);
    CommandFields(d);
    ParseCommandOfEncode(d);
  }

  /** Patching does not look at which command was last in flight. */
  lemma LastCodeDoesNotMatter(crypto: Crypto, l: Layer, code: u32, cmd: bytes, capacity: nat)
    ensures Patched(crypto, l.(lastCommandCode := code), cmd, capacity) == Patched(crypto, l, cmd, capacity)
  {
    hide ParseCommand, EncodeCommand, NamesOf;
    if Framed(cmd, capacity) && Target(l, cmd).Some? {
      var c := Target(l, cmd).value;
      assert Authorized(crypto, l.(lastCommandCode := code), c) == Authorized(crypto, l, c);
    }
  }

  /** All handles are named exactly if each one has a Name that is not empty. */
  lemma {:induction false} AllNamed(names: seq<NameEntry>, handles: seq<u32>)
    ensures NamesOf(names, handles).Some? <==> forall h | h in handles :: HandleName(names, h) != []
  {
    hide HandleName;
    if |handles| != 0 {
      AllNamed(names, handles[1..]);
    }
  }

  /**
    Commands that pass through: a size that is wrong or too large, no session armed,
    a tag other than 0x8002, a code that is not known, a StartAuthSession, an area that
    does not parse or is not one entry of the layer's session, and a handle without a Name.
   */
  lemma PassesThrough(crypto: Crypto, l: Layer, cmd: bytes, capacity: nat)
    ensures |cmd| < 10 || capacity < |cmd| || Read32(cmd, 2) != |cmd| ==>
              Patched(crypto, l, cmd, capacity) == cmd && AfterCommand(l, cmd, capacity) == l
    ensures 10 <= |cmd| && (!l.initialized || Read16(cmd, 0) != 0x8002 || Read32(cmd, 6) == 0x176) ==>
              Patched(crypto, l, cmd, capacity) == cmd
    ensures 10 <= |cmd| && Read32(cmd, 6) !in {0x126, 0x12A, 0x131, 0x147, 0x153, 0x157, 0x158, 0x159, 0x15D, 0x15E,
                                              0x161, 0x162, 0x165, 0x168, 0x176, 0x177, 0x17A, 0x17B, 0x182} ==>
              Patched(crypto, l, cmd, capacity) == cmd
    ensures 10 <= |cmd| <= capacity && Read32(cmd, 2) == |cmd| && Read32(cmd, 6) != 0x176 ==>
              AfterCommand(l, cmd, capacity) == l.(lastCommandCode := Read32(cmd, 6))
    ensures 10 <= |cmd| && Target(l, cmd).Some? ==>
              && Target(l, cmd).value.auth[0].handle == l.handle
              && forall h | h in Target(l, cmd).value.handles :: HandleName(l.names, h) != []
  {
    hide Read16, Read32, HandleName, EncodeCommand, ParseCommand, Known, Captured;
    if 10 <= |cmd| {
      TableByNumber(Read32(cmd, 6));
      if Target(l, cmd).Some? {
        AllNamed(l.names, Target(l, cmd).value.handles);
      }
    }
  }

  /** Patching what has already been patched changes neither the command nor the layer. */
  lemma PatchingIsIdempotent(crypto: Crypto, l: Layer, cmd: bytes, capacity: nat)
    requires capacity < 0x1_0000_0000
    ensures var out, l' := Patched(crypto, l, cmd, capacity), AfterCommand(l, cmd, capacity);
            && Patched(crypto, l', out, capacity) == Patched(crypto, l, out, capacity) == out
            && AfterCommand(l', out, capacity) == l'
  {
    var out, l' := Patched(crypto, l, cmd, capacity), AfterCommand(l, cmd, capacity);
    if Patches(crypto, l, cmd, capacity) {
      PatchedParses(crypto, l, cmd, capacity);
      assert Target(l', out) == Target(l, out);
      assert Authorized(crypto, l, Target(l, out).value) == Authorized(crypto, l, Target(l, cmd).value);
      assert Authorized(crypto, l', Target(l, out).value) == Authorized(crypto, l, Target(l, out).value);
    }
  }

  /** Commands alike in all but the values of nonce and HMAC (and the lengths those imply). */
  predicate SameButSecrets(c: Command, d: Command) {
    && |c.auth| == |d.auth| == 1
    && c.tag == d.tag && c.code == d.code && c.handles == d.handles && c.params == d.params
    && c.auth[0].handle == d.auth[0].handle && c.auth[0].attributes == d.auth[0].attributes
  }

  /** Patching is canonical: the nonce and HMAC a command arrives with do not matter. */
  lemma PatchingIsCanonical(crypto: Crypto, l: Layer, x: bytes, y: bytes, xCap: nat, yCap: nat)
    requires Framed(x, xCap) && Framed(y, yCap) && Read32(x, 6) == Read32(y, 6) && Known(Read32(x, 6))
    requires var n := HandleCount(Read32(x, 6));
             && ParseCommand(x, n).Some? && ParseCommand(y, n).Some?
             && SameButSecrets(ParseCommand(x, n).value, ParseCommand(y, n).value)
    ensures Target(l, x).Some? <==> Target(l, y).Some?
    ensures Patches(crypto, l, x, xCap) && Patches(crypto, l, y, yCap) ==>
              Patched(crypto, l, x, xCap) == Patched(crypto, l, y, yCap)
    ensures Patches(crypto, l, x, xCap) && !Patches(crypto, l, y, yCap) ==>
              |Patched(crypto, l, x, xCap)| > yCap
  {
    if Target(l, x).Some? {
      var c, d := Target(l, x).value, ParseCommand(y, HandleCount(Read32(x, 6))).value;
      assert Authorized(crypto, l, c) == Authorized(crypto, l, d);
    }
  }
}
