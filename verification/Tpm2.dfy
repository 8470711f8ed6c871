/** Constants of the TPM 2.0 Library specification that the code mentions. */
module Tpm2 {
  import opened Bytes

  // structure tags
  const ST_NO_SESSIONS: u16 := 0x8001
  const ST_SESSIONS: u16 := 0x8002

  const RC_SUCCESS: u32 := 0

  // command codes
  const CC_CLEAR: u32 := 0x126
  const CC_NV_DEFINE_SPACE: u32 := 0x12A
  const CC_PCR_ALLOCATE: u32 := 0x12B
  const CC_PCR_SET_AUTH_POLICY: u32 := 0x12C
  const CC_SET_PRIMARY_POLICY: u32 := 0x12E
  const CC_CREATE_PRIMARY: u32 := 0x131
  const CC_PCR_EVENT: u32 := 0x13C
  const CC_ACTIVATE_CREDENTIAL: u32 := 0x147
  const CC_CREATE: u32 := 0x153
  const CC_LOAD: u32 := 0x157
  const CC_QUOTE: u32 := 0x158
  const CC_RSA_DECRYPT: u32 := 0x159
  const CC_HMAC_START: u32 := 0x15B
  const CC_SIGN: u32 := 0x15D
  const CC_UNSEAL: u32 := 0x15E
  const CC_CONTEXT_LOAD: u32 := 0x161
  const CC_CONTEXT_SAVE: u32 := 0x162
  const CC_FLUSH_CONTEXT: u32 := 0x165
  const CC_LOAD_EXTERNAL: u32 := 0x167
  const CC_MAKE_CREDENTIAL: u32 := 0x168
  const CC_RSA_ENCRYPT: u32 := 0x174
  const CC_START_AUTH_SESSION: u32 := 0x176
  const CC_VERIFY_SIGNATURE: u32 := 0x177
  const CC_GET_CAPABILITY: u32 := 0x17A
  const CC_GET_RANDOM: u32 := 0x17B
  const CC_PCR_READ: u32 := 0x17E
  const CC_PCR_EXTEND: u32 := 0x182
  const CC_HASH_SEQUENCE_START: u32 := 0x186
  const CC_CREATE_LOADED: u32 := 0x191

  // handles, session types and algorithms
  const RH_NULL: u32 := 0x4000_0007
  const SE_HMAC: byte := 0
  const ALG_RSA: u16 := 0x0001
  const ALG_HMAC: u16 := 0x0005
  const ALG_KEYEDHASH: u16 := 0x0008
  const ALG_XOR: u16 := 0x000A
  const ALG_SHA256: u16 := 0x000B
  const ALG_NULL: u16 := 0x0010
  const ALG_OAEP: u16 := 0x0017
}
