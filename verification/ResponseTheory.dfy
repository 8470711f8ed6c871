/** What processing a response does to an idle, armed layer, by command codes and offsets in numbers. */
module ResponseTheory {
  import opened Bytes
  import opened CommandAttributes
  import opened CommandLayout
  import opened LayerRuns
  import opened Names
  import opened PatchTheory
  import opened SessionLayer
  import opened Tpm2

  /** Armed, with no StartAuthSession outstanding, and the given command in flight. */
  predicate Awaits(l: Layer, code: u32) {
    l.initialized && !l.pending && l.lastCommandCode == code
  }

  predicate HasOutHandle(code: u32) {
    code in {0x131, 0x157, 0x161, 0x176}
  }

  predicate HasNoOutHandle(code: u32) {
    code in {0x126, 0x12A, 0x147, 0x153, 0x158, 0x159, 0x15D, 0x15E, 0x162, 0x165, 0x168, 0x177, 0x17A, 0x17B, 0x182}
  }

  /** Where the first authorization starts in a response with n handles. */
  function AuthorizationAt(resp: bytes, n: nat): nat
    requires 14 + 4 * n <= |resp|
  {
    14 + 4 * n + Read32(resp, 10 + 4 * n)
  }

  /** A successful response of the right size, with sessions, whose first nonce fits. */
  predicate Follow(resp: bytes, n: nat) {
    && 14 + 4 * n <= |resp| && Read16(resp, 0) == 0x8002 && Read32(resp, 2) == |resp| && Read32(resp, 6) == 0
    && AuthorizationAt(resp, n) + 2 <= |resp|
    && AuthorizationAt(resp, n) + 2 + Read16(resp, AuthorizationAt(resp, n)) <= |resp|
  }

  lemma ParseByOffsets(resp: bytes, n: nat)
    ensures ParseResponse(resp, n).Some? <==>
            && 14 + 4 * n <= |resp| && AuthorizationAt(resp, n) + 2 <= |resp|
            && AuthorizationAt(resp, n) + 2 + Read16(resp, AuthorizationAt(resp, n)) <= |resp|
    ensures ParseResponse(resp, n).Some? ==>
              var r, at := ParseResponse(resp, n).value, AuthorizationAt(resp, n);
              |r.handles| == n && r.nonce == resp[at + 2..at + 2 + Read16(resp, at)]
  {
    hide Read16, Read32, TakeTpm2b, ReadHandles;
    if 14 + 4 * n <= |resp| && AuthorizationAt(resp, n) <= |resp| {
      TakeTpm2bAt(resp, AuthorizationAt(resp, n));
    }
  }

  /**
    On any bytes: a response is ignored unless the command is known and the
    response follows its layout; then the nonce behind the parameters is taken if
    it has 1 to 64 bytes, and nothing but nonce and Names changes.
   */
  lemma ResponseByOffsets(l: Layer, code: u32, resp: bytes)
    requires Awaits(l, code)
    ensures var l', n := AfterResponse(l, resp), if HasOutHandle(code) then 1 else 0;
            if !(HasOutHandle(code) || HasNoOutHandle(code)) || !Follow(resp, n) then l' == l
            else
              var at := AuthorizationAt(resp, n);
              var size := Read16(resp, at);
              && l' == l.(nonceTpm := l'.nonceTpm, names := l'.names)
              && l'.nonceTpm == (if 1 <= size <= 64 then resp[at + 2..at + 2 + size] else l.nonceTpm)
              && (HasNoOutHandle(code) ==> l'.names == l.names)
  {
    hide Read16, Read32, ParseResponse, Known, OutHandleCount, ResponseName, Added, AuthorizationAt, Consumed;
    TableByNumber(code);
    ParseByOffsets(resp, if HasOutHandle(code) then 1 else 0);
  }

  /** A command without an output handle: the nonce is taken from behind the parameters, and Names are kept. */
  lemma NoHandleResponse(l: Layer, code: u32, params: bytes, nonce: bytes, rest: bytes)
    requires Awaits(l, code) && HasNoOutHandle(code)
    requires Response([], params, nonce, rest).WellFormed()
    ensures AfterResponse(l, EncodeResponse(Response([], params, nonce, rest)))
            == if 1 <= |nonce| <= 64 then l.(nonceTpm := nonce) else l
  {
    hide Read16, Read32, TakeTpm2b, Known, OutHandleCount, ParseResponse, EncodeResponse, ResponseName, Added;
    TableByNumber(code);
    ParseResponseOfEncode(Response([], params, nonce, rest));
  }

  /** A command with one: the same, and CreatePrimary and Load add a Name for that handle. */
  lemma OneHandleResponse(l: Layer, code: u32, handle: u32, params: bytes, nonce: bytes, rest: bytes)
    requires Awaits(l, code) && HasOutHandle(code)
    requires Response([handle], params, nonce, rest).WellFormed()
    ensures var name := if code == 0x131 then CreatePrimaryName(params)
                        else if code == 0x157 then LoadName(params) else None;
            AfterResponse(l, EncodeResponse(Response([handle], params, nonce, rest)))
            == l.(nonceTpm := if 1 <= |nonce| <= 64 then nonce else l.nonceTpm,
                  names := if name.Some? then Added(l.names, handle, name.value) else l.names)
  {
    hide Read16, Read32, TakeTpm2b, Known, OutHandleCount, ParseResponse, EncodeResponse, CreatePrimaryName,
         LoadName, Added;
    TableByNumber(code);
    ParseResponseOfEncode(Response([handle], params, nonce, rest));
  }

  /** A Load response begins with the Name. */
  lemma NameOfLoadParams(name: bytes, trailing: bytes)
    requires |name| < 0x1_0000
    ensures LoadName(Tpm2b(name) + trailing) == Some(name)
  {
    TakeTpm2bOfTpm2b(name, trailing);
  }
}
