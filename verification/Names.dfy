/** The bounded handle-to-Name table of the session layer (src/harness/session_auth.cc). */
module Names {
  import opened Bytes

  const MAX_NAMES := 16
  const MAX_NAME_SIZE := 68

  datatype NameEntry = NameEntry(handle: u32, name: bytes)

  /** A Name as the table keeps it. */
  function Cut(name: bytes): (r: bytes)
    ensures |r| <= MAX_NAME_SIZE && r <= name
  {
    if |name| > MAX_NAME_SIZE then name[..MAX_NAME_SIZE] else name
  }

  /** The first position of a handle, or the length of the table. */
  function IndexOf(t: seq<NameEntry>, handle: u32): (i: nat)
    ensures i <= |t| && (i < |t| ==> t[i].handle == handle)
    ensures forall j | 0 <= j < i :: t[j].handle != handle
  {
    if |t| == 0 || t[0].handle == handle then 0 else 1 + IndexOf(t[1..], handle)
  }

  predicate Has(t: seq<NameEntry>, handle: u32) {
    IndexOf(t, handle) < |t|
  }

  /** The Name recorded for a handle; the empty Name when there is none. */
  function NameIn(t: seq<NameEntry>, handle: u32): bytes {
    if Has(t, handle) then t[IndexOf(t, handle)].name else []
  }

  function Added(t: seq<NameEntry>, handle: u32, name: bytes): seq<NameEntry> {
    if Has(t, handle) then t[IndexOf(t, handle) := NameEntry(handle, Cut(name))]
    else if |t| < MAX_NAMES then t + [NameEntry(handle, Cut(name))]
    else t
  }

  ghost predicate Distinct(t: seq<NameEntry>) {
    forall i, j | 0 <= i < j < |t| :: t[i].handle != t[j].handle
  }

  ghost predicate Bounded(t: seq<NameEntry>) {
    |t| <= MAX_NAMES && Distinct(t) && forall e | e in t :: |e.name| <= MAX_NAME_SIZE
  }

  lemma IndexIsUnique(t: seq<NameEntry>, i: nat)
    requires Distinct(t) && i < |t|
    ensures IndexOf(t, t[i].handle) == i
  {
  }

  /** Adding keeps the bounds, changes the Name of no other handle, and says which handles are kept. */
  lemma AddedEffect(t: seq<NameEntry>, handle: u32, name: bytes)
    requires Bounded(t)
    ensures Bounded(Added(t, handle, name))
    ensures forall h | h != handle ::
      && Has(Added(t, handle, name), h) == Has(t, h)
      && NameIn(Added(t, handle, name), h) == NameIn(t, h)
    ensures Has(Added(t, handle, name), handle) <==> Has(t, handle) || |t| < MAX_NAMES
    ensures Has(Added(t, handle, name), handle) ==> NameIn(Added(t, handle, name), handle) == Cut(name)
  {
    var r := Added(t, handle, name);
    forall h | h != handle ensures Has(r, h) == Has(t, h) && NameIn(r, h) == NameIn(t, h) {
      if Has(t, h) {
        assert r[IndexOf(t, h)] == t[IndexOf(t, h)];
        IndexIsUnique(r, IndexOf(t, h));
      }
    }
    if Has(t, handle) {
      IndexIsUnique(r, IndexOf(t, handle));
    } else if |t| < MAX_NAMES {
      IndexIsUnique(r, |t|);
    }
  }

  // ---------------------------------------------------------------------------
  // The table as a bounded map over a whole history of additions
  // ---------------------------------------------------------------------------

  /** The table after a history of additions, starting empty. */
  function Replay(history: seq<NameEntry>): seq<NameEntry> {
    if |history| == 0 then []
    else
      var last := history[|history| - 1];
      Added(Replay(history[..|history| - 1]), last.handle, last.name)
  }

  ghost function HandlesOf(history: seq<NameEntry>): set<u32> {
    set e | e in history :: e.handle
  }

  /** The handle was first added when fewer than 16 other handles had been. */
  ghost predicate Admitted(history: seq<NameEntry>, handle: u32) {
    exists i :: 0 <= i < |history| && history[i].handle == handle && |HandlesOf(history[..i])| < 16
  }

  /** The Name most recently added for a handle. */
  function Latest(history: seq<NameEntry>, handle: u32): bytes {
    if |history| == 0 then []
    else if history[|history| - 1].handle == handle then history[|history| - 1].name
    else Latest(history[..|history| - 1], handle)
  }

  /** At most 68 bytes of a Name. */
  function FirstBytes(name: bytes): bytes {
    name[..if |name| < 68 then |name| else 68]
  }

  lemma AdmittedStep(past: seq<NameEntry>, e: NameEntry, handle: u32)
    ensures Admitted(past + [e], handle) <==>
            Admitted(past, handle) || (handle == e.handle && |HandlesOf(past)| < MAX_NAMES)
  {
    var history := past + [e];
    assert forall i | 0 <= i <= |past| :: history[..i] == past[..i];
    assert past[..|past|] == past;
    if Admitted(past, handle) {
      var i :| 0 <= i < |past| && past[i].handle == handle && |HandlesOf(past[..i])| < MAX_NAMES;
      assert history[i].handle == handle && history[..i] == past[..i];
    }
    if handle == e.handle && |HandlesOf(past)| < MAX_NAMES {
      assert history[|past|].handle == handle && history[..|past|] == past;
    }
  }

  /** The table t holds exactly what a history of additions leaves in it. */
  ghost predicate Holds(t: seq<NameEntry>, history: seq<NameEntry>) {
    && Bounded(t)
    && (forall h :: Has(t, h) <==> Admitted(history, h))
    && (forall h :: NameIn(t, h) == if Admitted(history, h) then FirstBytes(Latest(history, h)) else [])
  }

  /** The table is full exactly when 16 handles have been seen; before that it has them all. */
  ghost predicate Fills(t: seq<NameEntry>, history: seq<NameEntry>) {
    && (|HandlesOf(history)| < 16 ==>
          |t| == |HandlesOf(history)| && forall h :: Has(t, h) <==> h in HandlesOf(history))
    && (|HandlesOf(history)| >= 16 ==> |t| == 16)
  }

  lemma HoldsStep(t: seq<NameEntry>, past: seq<NameEntry>, e: NameEntry)
    requires Holds(t, past) && Fills(t, past)
    ensures Holds(Added(t, e.handle, e.name), past + [e])
  {
    var history := past + [e];
    AddedEffect(t, e.handle, e.name);
    assert Cut(e.name) == FirstBytes(e.name);
    assert history[..|past|] == past;
    forall h ensures Admitted(history, h) <==>
                     Admitted(past, h) || (h == e.handle && |HandlesOf(past)| < MAX_NAMES)
    {
      AdmittedStep(past, e, h);
    }
  }

  lemma FillsStep(t: seq<NameEntry>, past: seq<NameEntry>, e: NameEntry)
    requires Bounded(t) && Fills(t, past)
    ensures Fills(Added(t, e.handle, e.name), past + [e])
  {
    AddedEffect(t, e.handle, e.name);
    HandlesSnoc(past, e);
  }

  lemma HandlesSnoc(past: seq<NameEntry>, e: NameEntry)
    ensures HandlesOf(past + [e]) == HandlesOf(past) + {e.handle}
    ensures |HandlesOf(past + [e])| == |HandlesOf(past)| + if e.handle in HandlesOf(past) then 0 else 1
  {
    assert HandlesOf(past + [e]) == HandlesOf(past) + {e.handle};
    if e.handle in HandlesOf(past) {
      assert HandlesOf(past + [e]) == HandlesOf(past);
    }
  }

  /**
    Over any sequence of additions the table is a bounded map: it keeps exactly
    the first 16 distinct handles, each with its latest Name cut to 68 bytes.
   */
  lemma {:induction false} ReplayIsBoundedMap(history: seq<NameEntry>)
    ensures Holds(Replay(history), history) && Fills(Replay(history), history)
  {
    if |history| != 0 {
      var past, e := history[..|history| - 1], history[|history| - 1];
      assert history == past + [e];
      ReplayIsBoundedMap(past);
      HoldsStep(Replay(past), past, e);
      FillsStep(Replay(past), past, e);
    }
  }

  // ---------------------------------------------------------------------------
  // The table in memory
  // ---------------------------------------------------------------------------

  /** Writing a Name into one slot leaves the bytes of the others. */
  lemma SlotApart(before: bytes, i: nat, name: bytes, j: nat)
    requires |before| == MAX_NAMES * MAX_NAME_SIZE && i < MAX_NAMES && j < MAX_NAMES && i != j
    requires |name| <= MAX_NAME_SIZE
    ensures var lo := MAX_NAME_SIZE * j;
            Overwrite(before, MAX_NAME_SIZE * i, name)[lo..lo + MAX_NAME_SIZE]
            == before[lo..lo + MAX_NAME_SIZE]
  {
  }

  lemma FirstIsIndex(t: seq<NameEntry>, i: nat)
    requires i < |t| && forall j | 0 <= j < i :: t[j].handle != t[i].handle
    ensures IndexOf(t, t[i].handle) == i
  {
  }

  lemma SlotFront(before: bytes, lo: nat, n: nat)
    requires n <= MAX_NAME_SIZE && lo + MAX_NAME_SIZE <= |before|
    ensures before[lo..lo + MAX_NAME_SIZE][..n] == before[lo..lo + n]
  {
  }

  class NameTable {
    ghost var Contents: seq<NameEntry>

    // entry i keeps its Name in the 68 bytes of store from 68 * i on
    const handles: array<u32>
    const sizes: array<nat>
    const store: array<byte>
    var count: nat

    ghost const Repr: set<object> := {this, handles, sizes, store}

    ghost predicate Valid()
      reads Repr
    {
      && handles.Length == sizes.Length == MAX_NAMES && store.Length == MAX_NAMES * MAX_NAME_SIZE
      && count == |Contents| && Bounded(Contents)
      && forall i | 0 <= i < count ::
           && handles[i] == Contents[i].handle && sizes[i] == |Contents[i].name|
           && Slot(i)[..sizes[i]] == Contents[i].name
    }

    /** The memory reserved for the Name of entry i. */
    ghost function Slot(i: nat): (b: bytes)
      requires i < MAX_NAMES && store.Length == MAX_NAMES * MAX_NAME_SIZE
      reads store
      ensures |b| == MAX_NAME_SIZE
    {
      store[MAX_NAME_SIZE * i..MAX_NAME_SIZE * i + MAX_NAME_SIZE]
    }

    constructor ()
      ensures Valid() && fresh(Repr) && Contents == []
    {
      handles := new u32[MAX_NAMES](_ => 0);
      sizes := new nat[MAX_NAMES](_ => 0);
      store := new byte[MAX_NAMES * MAX_NAME_SIZE](_ => 0);
      count, Contents := 0, [];
    }

    /** memset to zero. */
    method Clear()
      requires Valid()
      modifies Repr
      ensures Valid() && Contents == []
    {
      count, Contents := 0, [];
      forall i | 0 <= i < MAX_NAMES {
        handles[i] := 0;
      }
      forall i | 0 <= i < MAX_NAMES {
        sizes[i] := 0;
      }
      forall i | 0 <= i < MAX_NAMES * MAX_NAME_SIZE {
        store[i] := 0;
      }
    }

    /** Stores the name in slot i, leaving the other slots alone. */
    method SetName(i: nat, name: bytes)
      requires i < MAX_NAMES == sizes.Length && store.Length == MAX_NAMES * MAX_NAME_SIZE
      requires |name| <= MAX_NAME_SIZE
      modifies sizes, store
      ensures sizes[i] == |name| && Slot(i)[..|name|] == name
      ensures forall j | 0 <= j < MAX_NAMES && j != i ::
                sizes[j] == old(sizes[j]) && Slot(j) == old(Slot(j))
    {
      ghost var before := store[..];
      Memcpy(store, MAX_NAME_SIZE * i, name);
      sizes[i] := |name|;
      ghost var after := store[..];
      assert forall j | 0 <= j < MAX_NAMES ::
        Slot(j) == after[MAX_NAME_SIZE * j..MAX_NAME_SIZE * j + MAX_NAME_SIZE];
      forall j | 0 <= j < MAX_NAMES && j != i ensures Slot(j) == old(Slot(j)) {
        SlotApart(before, i, name, j);
      }
      assert Slot(i)[..|name|] == after[MAX_NAME_SIZE * i..MAX_NAME_SIZE * i + |name|] == name;
    }

    method Add(handle: u32, name: bytes)
      requires Valid()
      modifies Repr
      ensures Valid() && Contents == Added(old(Contents), handle, name)
    {
      var kept := Cut(name);
      AddedEffect(Contents, handle, name);
      for i := 0 to count
        invariant Valid() && unchanged(Repr)
        invariant forall j | 0 <= j < i :: Contents[j].handle != handle
      {
        if handles[i] == handle {
          SetName(i, kept);
          Contents := Contents[i := NameEntry(handle, kept)];
          return;
        }
      }
      if count < MAX_NAMES {
        var i := count;
        count := count + 1;
        handles[i] := handle;
        SetName(i, kept);
        Contents := Contents + [NameEntry(handle, kept)];
      }
    }

    /** The bytes of entry i that are in use. */
    function NameAt(i: nat): (name: bytes)
      requires Valid() && i < count
      reads Repr
      ensures name == Contents[i].name && |name| == sizes[i]
    {
      SlotFront(store[..], MAX_NAME_SIZE * i, sizes[i]);
      assert Slot(i) == store[..][MAX_NAME_SIZE * i..MAX_NAME_SIZE * i + MAX_NAME_SIZE];
      store[MAX_NAME_SIZE * i..MAX_NAME_SIZE * i + sizes[i]]
    }

    /** Copies the Name out and returns its size, or returns 0. */
    method Lookup(handle: u32, nameOut: array<byte>, nameCap: nat) returns (size: nat)
      requires Valid() && nameOut !in Repr && nameCap <= nameOut.Length
      modifies nameOut
      ensures var name := NameIn(Contents, handle);
              if |name| <= nameCap
              then size == |name| && nameOut[..] == Overwrite(old(nameOut[..]), 0, name)
              else size == 0 && nameOut[..] == old(nameOut[..])
    {
      hide Overwrite, Cut;
      OverwriteSame(nameOut[..], 0, 0);
      assert nameOut[..][0..0] == [];
      for i := 0 to count
        invariant unchanged(nameOut)
        invariant forall j | 0 <= j < i :: Contents[j].handle != handle
      {
        if handles[i] == handle {
          FirstIsIndex(Contents, i);
          if sizes[i] > nameCap {
            return 0;
          }
          Memcpy(nameOut, 0, NameAt(i));
          return sizes[i];
        }
      }
      size := 0;
    }
  }
}
