/** Handle counts of the commands the session layer knows (include/harness/command_attributes.h). */
module CommandAttributes {
  import opened Bytes
  import opened Tpm2

  datatype CommandAttrEntry =
    CommandAttrEntry(commandCode: u32, handleCount: nat, authHandleCount: nat, outHandleCount: nat)

  const TABLE: seq<CommandAttrEntry> := [
    CommandAttrEntry(CC_CLEAR, 1, 1, 0),
    CommandAttrEntry(CC_CREATE_PRIMARY, 1, 1, 1),
    CommandAttrEntry(CC_ACTIVATE_CREDENTIAL, 2, 2, 0),
    CommandAttrEntry(CC_CREATE, 1, 1, 0),
    CommandAttrEntry(CC_LOAD, 1, 1, 1),
    CommandAttrEntry(CC_QUOTE, 1, 1, 0),
    CommandAttrEntry(CC_RSA_DECRYPT, 1, 1, 0),
    CommandAttrEntry(CC_SIGN, 1, 1, 0),
    CommandAttrEntry(CC_UNSEAL, 1, 1, 0),
    CommandAttrEntry(CC_CONTEXT_LOAD, 0, 0, 1),
    CommandAttrEntry(CC_CONTEXT_SAVE, 1, 0, 0),
    CommandAttrEntry(CC_FLUSH_CONTEXT, 0, 0, 0),
    CommandAttrEntry(CC_MAKE_CREDENTIAL, 1, 0, 0),
    CommandAttrEntry(CC_START_AUTH_SESSION, 2, 0, 1),
    CommandAttrEntry(CC_VERIFY_SIGNATURE, 1, 0, 0),
    CommandAttrEntry(CC_GET_CAPABILITY, 0, 0, 0),
    CommandAttrEntry(CC_GET_RANDOM, 0, 0, 0),
    CommandAttrEntry(CC_PCR_EXTEND, 1, 1, 0),
    CommandAttrEntry(CC_NV_DEFINE_SPACE, 1, 1, 0)
  ]

  /** The layer handles a command only if it is known. */
  predicate Known(code: u32) {
    code in {
      CC_CLEAR, CC_CREATE_PRIMARY, CC_ACTIVATE_CREDENTIAL, CC_CREATE, CC_LOAD, CC_QUOTE,
      CC_RSA_DECRYPT, CC_SIGN, CC_UNSEAL, CC_CONTEXT_LOAD, CC_CONTEXT_SAVE, CC_FLUSH_CONTEXT,
      CC_MAKE_CREDENTIAL, CC_START_AUTH_SESSION, CC_VERIFY_SIGNATURE, CC_GET_CAPABILITY,
      CC_GET_RANDOM, CC_PCR_EXTEND, CC_NV_DEFINE_SPACE}
  }

  /** Handles in the command's handle area (Part 3 of the TPM 2.0 Library specification). */
  function HandleCount(code: u32): (n: nat)
    requires Known(code)
    ensures n <= 2
  {
    if code in {CC_ACTIVATE_CREDENTIAL, CC_START_AUTH_SESSION} then 2
    else if code in {CC_CONTEXT_LOAD, CC_FLUSH_CONTEXT, CC_GET_CAPABILITY, CC_GET_RANDOM} then 0
    else 1
  }

  /** Handles that an authorization is for; the other commands can be sent without a session. */
  function AuthHandleCount(code: u32): (n: nat)
    requires Known(code)
    ensures n <= HandleCount(code)
  {
    if code == CC_START_AUTH_SESSION then 0
    else if code in {CC_CONTEXT_SAVE, CC_MAKE_CREDENTIAL, CC_VERIFY_SIGNATURE} then 0
    else HandleCount(code)
  }

  /** Handles in the response's handle area. */
  function OutHandleCount(code: u32): (n: nat)
    requires Known(code)
    ensures n <= 1
  {
    if code in {CC_CREATE_PRIMARY, CC_LOAD, CC_CONTEXT_LOAD, CC_START_AUTH_SESSION} then 1 else 0
  }

  /** The table lists exactly the known codes, each with the handle counts above. */
  lemma TableIsRight()
    ensures forall i | 0 <= i < |TABLE| ::
      && Known(TABLE[i].commandCode)
      && TABLE[i].handleCount == HandleCount(TABLE[i].commandCode)
      && TABLE[i].authHandleCount == AuthHandleCount(TABLE[i].commandCode)
      && TABLE[i].outHandleCount == OutHandleCount(TABLE[i].commandCode)
    ensures forall code | Known(code) :: exists i :: 0 <= i < |TABLE| && TABLE[i].commandCode == code
  {
    forall code | Known(code)
      ensures exists i :: 0 <= i < |TABLE| && TABLE[i].commandCode == code
    {
      assert TABLE[0].commandCode == CC_CLEAR && TABLE[1].commandCode == CC_CREATE_PRIMARY;
      assert TABLE[2].commandCode == CC_ACTIVATE_CREDENTIAL && TABLE[3].commandCode == CC_CREATE;
      assert TABLE[4].commandCode == CC_LOAD && TABLE[5].commandCode == CC_QUOTE;
      assert TABLE[6].commandCode == CC_RSA_DECRYPT && TABLE[7].commandCode == CC_SIGN;
      assert TABLE[8].commandCode == CC_UNSEAL && TABLE[9].commandCode == CC_CONTEXT_LOAD;
      assert TABLE[10].commandCode == CC_CONTEXT_SAVE && TABLE[11].commandCode == CC_FLUSH_CONTEXT;
      assert TABLE[12].commandCode == CC_MAKE_CREDENTIAL;
      assert TABLE[13].commandCode == CC_START_AUTH_SESSION;
      assert TABLE[14].commandCode == CC_VERIFY_SIGNATURE && TABLE[15].commandCode == CC_GET_CAPABILITY;
      assert TABLE[16].commandCode == CC_GET_RANDOM && TABLE[17].commandCode == CC_PCR_EXTEND;
      assert TABLE[18].commandCode == CC_NV_DEFINE_SPACE;
    }
  }

  /**
    By the numbers of Part 2 and the handle areas of Part 3 of the TPM 2.0 Library
    specification: which commands are known, and how many handles they have, how
    many of those are authorized, and how many come back.
   */
  lemma TableByNumber(code: u32)
    ensures Known(code) <==>
            code in {0x126, 0x12A, 0x131, 0x147, 0x153, 0x157, 0x158, 0x159, 0x15D, 0x15E, 0x161, 0x162, 0x165, 0x168,
                     0x176, 0x177, 0x17A, 0x17B, 0x182}
    ensures Known(code) ==>
              && HandleCount(code) == (if code in {0x161, 0x165, 0x17A, 0x17B} then 0
                                       else if code in {0x147, 0x176} then 2 else 1)
              && AuthHandleCount(code) == (if code in {0x161, 0x162, 0x165, 0x168, 0x176, 0x177, 0x17A, 0x17B} then 0
                                           else if code == 0x147 then 2 else 1)
              && OutHandleCount(code) == (if code in {0x131, 0x157, 0x161, 0x176} then 1 else 0)
  {
  }

  /** The position of a code's first entry in a table, or the table's length. */
  method Search(table: seq<CommandAttrEntry>, code: u32) returns (i: nat)
    ensures i <= |table| && (i < |table| ==> table[i].commandCode == code)
    ensures forall j | 0 <= j < i :: table[j].commandCode != code
  {
    i := 0;
    while i < |table|
      invariant i <= |table| && forall j | 0 <= j < i :: table[j].commandCode != code
    {
      if table[i].commandCode == code {
        return;
      }
      i := i + 1;
    }
  }

  method LookupCommandAttr(code: u32) returns (attr: Option<CommandAttrEntry>)
    ensures attr.Some? <==> Known(code)
    ensures attr.Some? ==>
      && attr.value.commandCode == code
      && attr.value.handleCount == HandleCount(code)
      && attr.value.authHandleCount == AuthHandleCount(code)
      && attr.value.outHandleCount == OutHandleCount(code)
  {
    hide Known, HandleCount, AuthHandleCount, OutHandleCount;
    TableIsRight();
    var i := Search(TABLE, code);
    attr := if i < |TABLE| then Some(TABLE[i]) else None;
  }
}
