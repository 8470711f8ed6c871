/**
  Splitting a byte stream into length-prefixed TPM commands
  (src/parser/byte_parser.cc).
 */
module Framing {
  import opened Bytes

  const HEADER_TAG_LEN := 2
  const HEADER_COMMAND_SIZE_LEN := 4
  const HEADER_COMMAND_CODE_LEN := 4

  /** A frame: a full header whose size field is the frame's own length. */
  predicate IsFrame(f: bytes) {
    10 <= |f| && Read32(f, 2) == |f|
  }

  ghost predicate AllFrames(fs: seq<bytes>) {
    forall f | f in fs :: IsFrame(f)
  }

  function Concat(fs: seq<bytes>): bytes {
    if |fs| == 0 then [] else fs[0] + Concat(fs[1..])
  }

  lemma {:induction false} ConcatAppend(a: seq<bytes>, b: seq<bytes>)
    ensures Concat(a + b) == Concat(a) + Concat(b)
  {
    if |a| == 0 {
      assert a + b == b;
    } else {
      assert (a + b)[1..] == a[1..] + b;
      ConcatAppend(a[1..], b);
    }
  }

  lemma ConcatSnoc(a: seq<bytes>, f: bytes)
    ensures Concat(a + [f]) == Concat(a) + f
  {
    ConcatAppend(a, [f]);
    assert Concat([f]) == f + Concat([]) == f;
  }

  /** Two frames that start at the same place are the same frame. */
  lemma FrameAtIsUnique(f: bytes, g: bytes, data: bytes)
    requires IsFrame(f) && IsFrame(g) && f <= data && g <= data
    ensures f == g
  {
    assert f[2..6] == data[2..6] == g[2..6];
    ReadSame32(f, 2, g, 2);
    assert f == data[..|f|] == g;
  }

  /** Two framed prefixes of one stream agree as far as the shorter one goes. */
  lemma {:induction false} FramedPrefixesAgree(a: seq<bytes>, b: seq<bytes>, data: bytes)
    requires AllFrames(a) && AllFrames(b)
    requires Concat(a) <= data && Concat(b) <= data
    ensures a <= b || b <= a
  {
    if |a| != 0 && |b| != 0 {
      assert a[0] <= Concat(a) && b[0] <= Concat(b);
      FrameAtIsUnique(a[0], b[0], data);
      var n := |a[0]|;
      assert Concat(a[1..]) == Concat(a)[n..] <= data[n..];
      assert Concat(b[1..]) == Concat(b)[n..] <= data[n..];
      FramedPrefixesAgree(a[1..], b[1..], data[n..]);
      assert a == [a[0]] + a[1..] && b == [b[0]] + b[1..];
    }
  }

  /** No frame is a prefix of the given bytes. */
  ghost predicate NoFrameStarts(rest: bytes) {
    forall f | IsFrame(f) :: !(f <= rest)
  }

  /** A longer framed prefix has its next frame right where the shorter one stops. */
  lemma NextFrame(found: seq<bytes>, fs: seq<bytes>, data: bytes)
    requires Concat(fs) <= data && found < fs
    ensures |Concat(found)| <= |data|
    ensures fs[|found|] in fs && fs[|found|] <= data[|Concat(found)|..]
  {
    var tail := fs[|found|..];
    assert fs == found + tail;
    ConcatAppend(found, tail);
    PrefixDrop(Concat(found), Concat(tail), data);
    assert tail[0] <= Concat(tail);
  }

  lemma PrefixDrop(a: bytes, b: bytes, data: bytes)
    requires a + b <= data
    ensures |a| <= |data| && b <= data[|a|..]
  {
    assert forall i | 0 <= i < |b| :: b[i] == (a + b)[|a| + i];
  }

  /** When no frame starts after the frames found, they are the longest framed prefix. */
  lemma StuckIsLongest(found: seq<bytes>, data: bytes)
    requires AllFrames(found) && Concat(found) <= data
    requires NoFrameStarts(data[|Concat(found)|..])
    ensures forall fs | AllFrames(fs) && Concat(fs) <= data :: fs <= found
  {
    forall fs | AllFrames(fs) && Concat(fs) <= data ensures fs <= found {
      FramedPrefixesAgree(found, fs, data);
      if found < fs {
        NextFrame(found, fs, data);
      }
    }
  }

  /** A frame has the length that its size field names. */
  lemma FrameHasNamedLength(rest: bytes, f: bytes)
    requires IsFrame(f) && f <= rest
    ensures |f| == Read32(rest, 2)
  {
    assert f[2..6] == rest[2..6];
    ReadSame32(f, 2, rest, 2);
  }

  method ParseCommands(data: array<byte>, size: nat) returns (ok: bool, commands: seq<bytes>)
    requires size <= data.Length
    ensures AllFrames(commands) && Concat(commands) <= data[..size]
    // no split into frames reaches further
    ensures forall fs | AllFrames(fs) && Concat(fs) <= data[..size] :: fs <= commands
    ensures ok <==> Concat(commands) == data[..size]
    ensures 10 * |commands| <= size
  {
    var offset := 0;
    commands := [];
    ghost var all := data[..size];
    while offset < size
      invariant offset == |Concat(commands)| <= size
      invariant AllFrames(commands) && Concat(commands) == all[..offset]
      invariant 10 * |commands| <= offset
    {
      ghost var rest := all[offset..];
      if offset + HEADER_TAG_LEN + HEADER_COMMAND_SIZE_LEN + HEADER_COMMAND_CODE_LEN > size {
        assert NoFrameStarts(rest);
        StuckIsLongest(commands, all);
        return false, commands;
      }
      var length := Read32(data[offset..size], HEADER_TAG_LEN);
      assert data[offset..size] == rest;
      if length < HEADER_TAG_LEN + HEADER_COMMAND_SIZE_LEN + HEADER_COMMAND_CODE_LEN
         || offset + length > size {
        forall f | IsFrame(f) ensures !(f <= rest) {
          if f <= rest {
            FrameHasNamedLength(rest, f);
          }
        }
        StuckIsLongest(commands, all);
        return false, commands;
      }
      var command := data[offset..offset + length];
      Inner(data[..], offset, size, 0, length);
      assert command == rest[..length];
      assert command[2..6] == rest[2..6];
      ReadSame32(command, 2, rest, 2);
      ConcatSnoc(commands, command);
      assert all[..offset + length] == all[..offset] + command;
      commands := commands + [command];
      offset := offset + length;
    }
    ok := true;
    assert all[..offset] == all && all[offset..] == [];
    StuckIsLongest(commands, all);
  }

  /**
    A longest framed prefix covers a stream exactly when the stream is a
    concatenation of frames, and then it is the only way to split the stream.
   */
  lemma LongestCoversFramedStreams(data: bytes, commands: seq<bytes>)
    requires AllFrames(commands) && Concat(commands) <= data
    requires forall fs | AllFrames(fs) && Concat(fs) <= data :: fs <= commands
    ensures Concat(commands) == data <==> exists fs :: AllFrames(fs) && Concat(fs) == data
    ensures forall fs | AllFrames(fs) && Concat(fs) == data :: fs == commands
  {
    forall fs | AllFrames(fs) && Concat(fs) == data ensures fs == commands {
      if fs < commands {
        NextFrame(fs, commands, data);
      }
    }
  }
}
