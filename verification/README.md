# A proved model of the TPM fuzzing harness

The harness feeds sequences of TPM 2.0 commands to a TPM implementation. Commands come either from seed
files (a byte stream of commands, written by a Python generator) or from protobuf messages, which a C++
marshaller turns into wire bytes. Between the marshaller and the TPM sits an HMAC session layer. It
watches StartAuthSession go by, follows the session's rolling nonceTPM and the Names of new objects, and
rewrites commands in place so that their authorization HMAC is the one the TPM will compute.

The project models these parts and proves what they are for:

* **The session layer against a TPM.** `SessionLayer` says on values what patching a command and
  processing a response mean. `SessionAuth` is the same on buffers: a class with the fixed-size arrays of
  `g_session`, working at offsets and rewriting commands in place; every method is proved equal to its
  value-level meaning. `LayerRuns` has the invariants of any run of commands and responses. `Peers` has an
  abstract TPM, given as a relation: it may refuse, sessions and objects may come and go, and any sessions in an
  authorization area may get new nonces; responses are well formed and nonces have 1 to 64 bytes. `Lockstep`
  sets the layer against it: over whole runs in step, both sides hold the same nonceTPM and the same Names.
  `SenderConditions` has the exact conditions, on the command and the present state alone, for lockstep to be
  kept whatever an orderly TPM answers: one that reports success with an authorization area exactly if the
  command had sessions, and brings a transient object in only by the commands that are for that, under a free handle,
  and for CreatePrimary and Load as the response reports. `HmacCheck` shows that the HMAC of a patched command, parsed again from
  the bytes that were sent, verifies exactly if the two sides agree, and that from wherever a run has got to, a
  session can be started under which HMACs verify. `OutOfStep` has exchanges after which the sides differ.
* **Patching.** `PatchTheory` and `AuthAreaPatching`: a patched command is a splice of the original, patching
  is idempotent and canonical, grows a command by at most 48 bytes, and never touches a byte past the new size.
* **Marshalling.** `Marshalling` has the C++ marshalers over a buffer with a moving offset and two
  back-patched sizes. `SeedTypes`, `SeedParsers`, `SeedMessages` and `SeedCommands` have the Python encoders,
  the parsers that invert them; `GeneratorAgreement` has the agreement of the two implementations, on every kind
  of message.
* **Framing.** `Framing` splits a stream into commands and inverts the Python serializer.
* **The loop.** `SeedRun` follows one seed file byte by byte. `FuzzLoop` puts marshalling, patching, sending and processing together, and says which messages
  keep lockstep.

`ResponseTheory` says by codes and offsets what responses do. `Bytes`, `Tpm2`, `CommandAttributes`, `CommandLayout`, `StartAuthSession` and `Names` hold the shared
vocabulary: big-endian integers, TPM2B fields, headers, authorization areas, and the Name table.

SHA-256 and HMAC-SHA256 are a pair of arbitrary total functions with 32-byte results. Structures that the
Tss2_MU library marshals are arbitrary bytes, or a refusal. The TPM is a relation between a command, a
response and two states (`Peers.Answers`), or a function of everything sent so far (`FuzzLoop.Tpm`).
Signed and unsigned conversions that wrap in the source (session sizes, enum values, attribute bytes) wrap
in the model.

## What the proofs found

* **Sessions of others.** `ProcessResponse` takes nonceTPM from every successful response with sessions to a
  command it knows, and always the first one (src/harness/session_auth.cc:586-618). If the first entry of the
  area is another live session, such as a policy session, the layer takes that session's nonce for its own; if the
  layer's session is a later entry, or belongs to a command that the layer does not know, the layer misses its
  nonce. `OutOfStep.ForeignMessageBreaksLockstep` shows it for every message of the loop whose kind the layer follows
  and whose first session is another live one; `OutOfStep.ClearByPolicyIsForeign` is a Clear under a policy
  session. The exact condition on a message is `FuzzLoop.MessageInStep`, and on any command
  `Lockstep.CommandInStep`. A TPM that rolls nonces only on patched commands is always in step
  (`Lockstep.RollingOnlyPatchedIsInStep`).
* **Names of replaced objects.** Only CreatePrimary and Load have a Name extractor
  (src/harness/session_auth.cc:233-236), and a Name is forgotten only when a session is armed. When an object
  is flushed and another one comes in under its handle by ContextLoad, LoadExternal, CreateLoaded, HMAC_Start or
  HashSequenceStart, the layer keeps the old Name and computes its HMAC over it (`OutOfStep.StaleNameBreaksLockstep`,
  `OutOfStep.StaleNameFails`). The exact condition on a command is `Lockstep.CommandKeepsNames`. This is a limit of
  the layer's C interface: normalized messages make objects by CreatePrimary and Load only
  (include/proto/tpm_commands.proto:21-39), so the loop's commands always keep Names
  (`FuzzLoop.MessageKeepsNames`).
* **Authorization values.** The layer's HMAC key leaves out the entity's authorization value
  (src/harness/session_auth.cc:359-366). In lockstep the HMAC of a patched command verifies for all hash functions
  exactly when it authorizes no handle or that handle's value is empty
  (`HmacCheck.VerifiesExactlyWithoutAuthValue`; a state where it does not: `OutOfStep.PasswordFails`).
* **Shrinking commands.** A comment says that nonce and HMAC always grow, so that padding cannot occur
  (src/harness/session_auth.cc:411-413). An entry that arrives with more than 48 bytes of nonce and HMAC
  shrinks; the model follows the code. The padding loop still never runs, because the guard at line 530
  admits only areas that are one entry long (`SessionAuth.SpliceIsPatched` has zero padding bytes).
* **Scheme hashes.** `_proto_public` does not expect the hash that `to_bytes` puts after a scheme. It inverts
  the encoder exactly when no hash is encoded or the unique field happens to repeat its own length
  (`SeedMessages.PublicInvertsExactly`). The generator's HMAC key comes back with a unique field of two
  zero bytes instead of an empty one (`SeedMessages.HmacKeyIsMisread`).
* **OAEP without a hash.** For an RSA scheme OAEP with no hash the generator writes none, and the message has hash 0,
  which the marshaller writes as two zero bytes. The two agree exactly on all other schemes
  (`GeneratorAgreement.RsaDecryptAgrees`, `GeneratorAgreement.RsaEncryptAgrees`).
* **Large enum values.** Enum fields of a message hold signed 32-bit values, so a CreatePrimary hierarchy or a
  StartAuthSession key or bind handle from 2^31 on has bytes but no message. SetPrimaryPolicy makes its message
  in the constructor, so there is no such command at all. NV_DefineSpace and StartAuthSession also need
  algorithms that have a name.

## Model

| member | source | states |
|---|---|---|
| Framing.ParseCommands | src/parser/byte_parser.cc:12-42 | The output is a list of frames (at least 10 bytes, size field equal to length) that is a prefix of the input and that no split into frames extends; true exactly when it is the whole input; at least 10 bytes per command |
| Framing.LongestCoversFramedStreams | src/parser/byte_parser.cc:17-41 | That longest list covers the input exactly when the input is a concatenation of frames at all, and then it is the only split |
| Framing.FramedPrefixesAgree | src/parser/byte_parser.cc:17-39 | Two framed prefixes of one stream: one is a prefix of the other, so splits are unique |
| SeedTypes.FramingInvertsSerializer | tools/seed-generation/main.py:761-762 | The longest framed prefix of a serialized sequence is exactly the list of the commands' bytes, and covers it |
| SeedTypes.SerializedIsConcat | tools/seed-generation/main.py:761-762 | A serialized sequence is a concatenation of frames, one per command |
| SeedTypes.CommandBytesForm | tools/seed-generation/tpm2_commands.py:39-48 | Bytes exist exactly when tag, code and size fit; they are the 10-byte header with the actual size, then the parameters |
| SeedTypes.AuthCommandForm | tools/seed-generation/tpm2_types.py:337-352 | When a session has an encoding, and its fields in order |
| SeedTypes.SensitiveForm | tools/seed-generation/tpm2_types.py:382-407 | The same for sensitive data, with both sizes |
| SeedTypes.SymDefForm | tools/seed-generation/tpm2_types.py:164-173 | The same for symmetric definitions; ALG_NULL stands alone |
| SeedTypes.RsaParmsForm | tools/seed-generation/tpm2_types.py:192-202 | The same for RSA parameters, with a hash only behind a scheme |
| SeedTypes.KeyedHashParmsForm | tools/seed-generation/tpm2_types.py:219-223 | The same for keyed hashes, with a hash only for HMAC |
| SeedTypes.PublicForm | tools/seed-generation/tpm2_types.py:260-306 | The same for public areas; no types but RSA and KEYEDHASH are written |
| SeedTypes.PcrSelectionForm | tools/seed-generation/tpm2_types.py:436-439 | The same for PCR selections |
| SeedTypes.NvPublicForm | tools/seed-generation/tpm2_types.py:604-635 | The same for NV public areas |
| CommandAttributes.LookupCommandAttr | include/harness/command_attributes.h:22-58 | Finds an entry exactly for the known commands, with their handles in commands, handles to be authorized, and handles in responses |
| CommandAttributes.TableIsRight | include/harness/command_attributes.h:28-49 | The table lists exactly the known commands, each with its three handle counts |
| CommandAttributes.TableByNumber | include/harness/command_attributes.h:28-49 | By command code in numbers: which are known, and how many handles they have, authorize and return |
| Peers.LayerKnowsRules | include/harness/command_attributes.h:23-27 | The layer's counts and kinds of handles are those of the TPM's own rules |
| Bytes.ByteOrder | src/harness/session_auth.cc:105-125 | Reads and stores put the most significant byte first |
| Names.NameTable.Add | src/harness/session_auth.cc:49-64 | The table in memory becomes the old one with the Name added or updated, cut to 68 bytes; unchanged when full and the handle is new |
| Names.NameTable.Lookup | src/harness/session_auth.cc:68-78 | Copies out exactly the recorded Name if it fits the output; otherwise returns 0 and writes nothing |
| Names.AddedEffect | src/harness/session_auth.cc:49-64 | Adding keeps handles distinct and the table bounded, changes no other handle's Name, and keeps the new Name exactly if the handle was there or there was room |
| Names.ReplayIsBoundedMap | src/harness/session_auth.cc:44-79 | After any additions the table holds exactly the first 16 distinct handles, each with its latest Name cut to 68 bytes |
| CommandLayout.ParseCommandOfEncode | src/harness/session_auth.cc:296-311 | Parsing an encoded command, with any list of authorization entries, gives the command back |
| CommandLayout.EncodeOfParseCommand | src/harness/session_auth.cc:296-311 | Encoding what was parsed gives the same bytes back |
| CommandLayout.ParseResponseOfEncode | src/harness/session_auth.cc:593-612 | Header, output handles, parameters and first nonce of a response with sessions are recovered from its bytes |
| CommandLayout.ParseEntriesOfEncodeEntries | src/harness/session_auth.cc:507-530 | An authorization area parses to exactly the entries it was made of, for any number of them |
| SessionAuth.SkipIsTake | src/harness/session_auth.cc:148-153 | Skipping a TPM2B by offset fails exactly when no field fits before the end, else lands just behind the field; the 0 sentinel is never a real offset |
| SessionAuth.AreaIsWhereParsed | src/harness/session_auth.cc:296-311 | In any well-formed command the authorization area is found at its place and with its length |
| SessionAuth.EntryChecksAreSoleEntry | src/harness/session_auth.cc:510-530 | The offset checks accept exactly the areas that are one entry, and the offsets they find are that entry's fields |
| SessionAuth.TargetByOffsets | src/harness/session_auth.cc:487-540 | The offset checks select exactly the commands that parse to a single entry for the layer's session with all Names known |
| SessionAuth.SpliceIsPatched | src/harness/session_auth.cc:373-423 | For a target the in-place rewriting has no padding and yields the encoding of the authorized command, or leaves a too small buffer alone |
| SessionAuth.SessionState.Reset | src/harness/session_auth.cc:455 | The state becomes the zero state |
| SessionAuth.SessionState.Init | src/harness/session_auth.cc:429-453 | The state becomes that of the given session and nothing else; nonce and key are cut to 64 bytes |
| SessionAuth.SessionState.GetHandleName | src/harness/session_auth.cc:159-182 | Writes the Name of a handle by its kind (recorded Name, or the handle itself); size 0 exactly when it is unknown or does not fit |
| SessionLayer.NameByRange | src/harness/session_auth.cc:155-182 | By handle ranges in numbers: which handles name themselves, which are looked up, and which have no Name |
| SessionAuth.SessionState.ComputeCpHash | src/harness/session_auth.cc:317-337 | The hash of the code, all handles' Names and the parameters; none exactly when some Name is unknown |
| SessionAuth.SessionState.ComputeHmac | src/harness/session_auth.cc:343-368 | The HMAC, under the session key, of cpHash, caller nonce, nonceTPM and attributes; the message fits its 113 bytes |
| SessionAuth.SessionState.CaptureStartAuthSessionCommand | src/harness/session_auth.cc:261-290 | The bookkeeping becomes what the value-level reading of the command says |
| SessionAuth.SessionState.CheckEntry | src/harness/session_auth.cc:510-530 | Succeeds exactly on an area that is one entry of the layer's session, with that entry's offsets and sizes |
| SessionAuth.SessionState.PatchCommand | src/harness/session_auth.cc:461-554 | The buffer's front becomes the patched command, the bytes past the new size are untouched, and the state becomes the value-level one; null and malformed buffers change nothing |
| SessionAuth.SessionState.ExtractCreatePrimaryName | src/harness/session_auth.cc:191-210 | Adds exactly the Name of a well-formed parameter block, else nothing; reads only the parameters |
| SessionAuth.SessionState.ExtractLoadName | src/harness/session_auth.cc:214-220 | Adds the leading Name if it fits, else nothing |
| SessionAuth.SessionState.PopulateNameFromResponse | src/harness/session_auth.cc:239-249 | CreatePrimary and Load responses add their Name; others add none |
| SessionAuth.SessionState.ProcessResponse | src/harness/session_auth.cc:556-625 | The state becomes the value-level state after the response, on every buffer, malformed ones included |
| SessionAuth.SessionState.ConsumeStartAuthSessionResponse | src/harness/session_auth.cc:569-584 | A pending start is consumed by the response whatever it says, and arms the layer only if compatible and successful |
| SessionAuth.SessionState.RefreshNonce | src/harness/session_auth.cc:614-618 | nonceTPM is replaced, unless the new one is empty or too long |
| SessionAuth.SessionState.FollowResponse | src/harness/session_auth.cc:589-624 | A response that parses refreshes the nonce and adds the Name it carries; any other changes nothing |
| ResponseTheory.ResponseByOffsets | src/harness/session_auth.cc:586-618 | On any bytes: a response is ignored unless the code is known and it follows the layout; else exactly the nonce behind the parameters is taken, if it has 1 to 64 bytes |
| ResponseTheory.NoHandleResponse | src/harness/session_auth.cc:589-618 | For Clear, Create, RsaDecrypt, NvDefineSpace and the others without an output handle, the nonce is taken and Names are kept |
| ResponseTheory.OneHandleResponse | src/harness/session_auth.cc:589-624 | For CreatePrimary and Load the nonce is taken and the Name is added for the output handle; for the others with one, Names are kept |
| AuthAreaPatching.WriteEntry | src/harness/session_auth.cc:400-414 | One store of nonce, attributes, HMAC and zeros up to the end; nothing else changes |
| AuthAreaPatching.PatchAuthArea | src/harness/session_auth.cc:373-423 | Growing or shrinking, the new bytes are the old header with the new size, the handles, the new area with its size, and the old parameters; later bytes are untouched; too small a buffer is left as it was |
| PatchTheory.SoleEntryIsParse | src/harness/session_auth.cc:507-530 | An area parses to exactly one entry if and only if its length fields say so |
| PatchTheory.AuthorizedWellFormed | src/harness/session_auth.cc:379-391 | Authorization gives an area of 57 bytes and a size larger by 48 less the old nonce and HMAC |
| PatchTheory.PatchedIsSplice | src/harness/session_auth.cc:373-423 | The patched command is the header with the new size, the same handles, the authorized entry, and the same parameters |
| PatchTheory.PatchedBytes | src/harness/session_auth.cc:373-423 | The patched command byte by byte: area size 57, sixteen 0xAA, attributes, the 32-byte HMAC over its message, parameters |
| PatchTheory.PassesThrough | src/harness/session_auth.cc:463-540 | Wrong size, no session, other tag, unknown code, StartAuthSession: the command is not changed; the code in flight is recorded exactly if the size is right |
| PatchTheory.HeadroomSuffices | src/proto-fuzzer.cc:48-55 | Patching adds at most 48 bytes, so with 48 bytes or more to spare every target is patched |
| PatchTheory.PatchedParses | src/harness/session_auth.cc:461-554 | A patched command parses to the authorized command and is again a target |
| PatchTheory.PatchingIsIdempotent | src/harness/session_auth.cc:461-554 | Patching a second time changes neither the command nor the state |
| PatchTheory.PatchingIsCanonical | src/harness/session_auth.cc:317-337 | Commands that differ only in nonce and HMAC are both targets or neither, and patch to the same bytes; if only one is patched, the other's buffer was too small |
| StartAuthSession.CaptureIsFullParse | src/harness/session_auth.cc:261-290 | For any nonce, salt and symmetric field, reading the hash from the tail finds the session compatible exactly when key and bind are NULL, the salt is empty, the type is HMAC and the hash SHA-256 |
| StartAuthSession.CaptureByOffsets | src/harness/session_auth.cc:261-290 | On any bytes, by offsets and numbers: when nothing is offered, which hash is read, and when the offer is compatible |
| StartAuthSession.CaptureAgreesWithParse | src/harness/session_auth.cc:251-260 | Whenever a left-to-right parse of the whole command succeeds, the tail read sees the same hash and verdict |
| StartAuthSession.ParseStartAuthOfEncode | tools/seed-generation/tpm2_commands.py:607-616 | The full parse recovers every field, with a symmetric definition of 2, 4 or 6 bytes |
| StartAuthSession.StartAuthResponseFields | src/harness/session_auth.cc:564-578 | Handle and nonce are read back from a StartAuthSession response |
| LayerRuns.RunKeepsInv | src/harness/session_auth.cc:81-99 | In every reachable state: nonce at most 64 bytes, empty key, at most 16 distinct Names of at most 68 bytes; compatible implies pending and SHA-256; armed implies SHA-256 and digest size 32 |
| LayerRuns.HmacMessageFits | src/harness/session_auth.cc:350-357 | In every reachable state the HMAC message is at most 113 bytes |
| LayerRuns.RunNamesAreBoundedMap | src/harness/session_auth.cc:620-624 | After any run the Names are a bounded map of exactly what CreatePrimary and Load responses have reported since the layer was last armed |
| LayerRuns.PendingMeansUnanswered | src/harness/session_auth.cc:93-98 | A start is pending exactly when some StartAuthSession has had no well-sized response and no newer start since; the flags are those of its own command |
| LayerRuns.ArmsExactlyOnCompatibleAnswer | src/harness/session_auth.cc:569-584 | With a start unanswered, the layer takes on a session exactly on a successful response to a compatible offer, with just that session's state; otherwise session, nonce and Names stay as they were |
| LayerRuns.IdleKeepsSession | src/harness/session_auth.cc:586-624 | With no start unanswered, no event changes handle, algorithm or key |
| LayerRuns.SessionHandleIsLatest | src/harness/session_auth.cc:457-459 | Over any run the session handle reported is that of the latest response that answered a compatible StartAuthSession, and 0 if there was none |
| LayerRuns.NameOfCreatePrimaryParams | src/harness/session_auth.cc:186-210 | From any well-formed parameter block exactly the Name field is taken |
| LayerRuns.NameOnlyInCreatePrimaryParams | src/harness/session_auth.cc:186-210 | A Name is taken only from a parameter block of that form |
| Lockstep.ExchangeKeepsLockstep | src/harness/session_auth.cc:461-625 | Every possible exchange in step on nonces and Names keeps both equal, whatever happens to other sessions and objects, orderly or not |
| Lockstep.RunKeepsLockstep | src/harness/session_auth.cc:461-625 | From a reset on, over any run with an orderly TPM in step on nonces and with commands that keep Names, layer and TPM hold the same nonceTPM and key while the session is held, and the same Names |
| Lockstep.StartedStep | src/harness/session_auth.cc:569-584 | Starting a session, plain or not, keeps the nonces equal; a plain one arms the layer with the TPM's nonce |
| Lockstep.ExecutedNonce | src/harness/session_auth.cc:609-618 | With new nonces for any sessions in the area: being in step is enough for equal nonces after a successful command, and necessary when new nonces are fresh |
| Lockstep.InStepByCommand | src/harness/session_auth.cc:586-618 | With a TPM that rolls every session in the area, being in step is a property of the command: its code, the first session, and whether the layer's is in the area |
| Lockstep.NamesInStepByCommand | src/harness/session_auth.cc:231-249 | An orderly TPM's answer to a command that keeps Names is in step on Names |
| SenderConditions.NamesKeptExactly | src/harness/session_auth.cc:620-624 | Every answer of an orderly TPM leaves the recorded Names right if and only if the command is CreatePrimary or Load, or loads nothing, or cannot succeed, or every handle with a recorded Name is taken |
| SenderConditions.NonceKeptExactly | src/harness/session_auth.cc:609-618 | Every answer leaves both sides with the same nonce if and only if the command is in step by its code and sessions, or the session is gone |
| SenderConditions.LockstepKeptExactly | src/harness/session_auth.cc:461-625 | Every answer keeps lockstep if and only if both conditions on the command hold |
| SenderConditions.PerformedBreaksNonce | src/harness/session_auth.cc:609-618 | For every command out of step there is an answer after which the session is held and the nonces differ |
| SenderConditions.ReplacingBreaksNames | src/harness/session_auth.cc:231-249 | For every command that does not keep Names there is an answer after which a recorded Name is wrong |
| Lockstep.RollingOnlyPatchedIsInStep | src/harness/session_auth.cc:461-554 | A TPM that rolls nonces only on patched commands is always in step |
| HmacCheck.VerifiesExactly | src/harness/session_auth.cc:532-553 | The HMAC of a patched command verifies for all hash functions if and only if both sides agree on nonce, key with authorization value, and Names of the handles |
| HmacCheck.PatchedHmacIsExpected | src/harness/session_auth.cc:532-553 | In lockstep, parsing the bytes sent gives the HMAC that the TPM recomputes |
| HmacCheck.RunPatchesVerify | src/proto-fuzzer.cc:44-57 | The same after any run from a reset that keeps lockstep |
| HmacCheck.VerifiesExactlyWithoutAuthValue | src/harness/session_auth.cc:339-368 | In lockstep, it verifies for all hash functions if and only if no handle is authorized or its authorization value is empty |
| HmacCheck.PlainSessionIsHeld | src/harness/session_auth.cc:564-584 | From any state in lockstep a plain session can be started, and then both sides hold it |
| HmacCheck.StartedSessionVerifies | src/proto-fuzzer.cc:44-57 | From any state in lockstep, start any plain session: then every command authorized by it alone, over permanent, PCR and session handles, is patched, and its HMAC verifies |
| OutOfStep.ForeignMessageBreaksLockstep | src/proto-fuzzer.cc:44-57 | From any state in lockstep, a message that the layer follows and another live session authorizes first is sent as marshalled, and leaves the layer with that session's nonce |
| OutOfStep.ClearByPolicyIsForeign | src/harness/session_auth.cc:609-618 | A Clear under a policy session is such a message |
| OutOfStep.StaleNameBreaksLockstep | src/harness/session_auth.cc:231-249 | From any state in lockstep, a ContextLoad sent through the layer's interface, under a free handle with a recorded Name, leaves the layer with that old Name |
| OutOfStep.StaleNameFails | src/harness/session_auth.cc:317-337 | After that a command over the handle is still patched, and its HMAC fails to verify for some hash functions |
| OutOfStep.PasswordFails | src/harness/session_auth.cc:359-366 | A state in lockstep, and a Clear under a lockout password that is patched and whose HMAC fails to verify for some hash functions |
| Marshalling.MarshalCommand | src/harness/proto_conversion.cc:26-46 | Succeeds exactly on messages with an encoding of at most 1 MiB, and returns it: header with the actual size, then the fields' encodings |
| Marshalling.MarshalsUnless | src/harness/proto_conversion.cc:26-64 | A message does not marshal exactly if it is empty, a field has no encoding, or it exceeds 1 MiB |
| Marshalling.FieldFails | src/harness/proto_conversion.cc:109-112 | Which fields have no encoding: counts and digests over 16 bits, and what the library refuses |
| Marshalling.MarshalFields | src/harness/proto_conversion.cc:48-64 | Fields are stored one after another; success exactly when all have encodings and these fit; bytes before the offset are kept |
| Marshalling.MarshalCommandField | src/harness/proto_conversion.cc:66-134 | Any field: stores exactly its encoding at the offset, or fails without touching earlier bytes |
| Marshalling.MarshalRepeatedField | src/harness/proto_conversion.cc:226-263 | With the back-patched size, stores exactly the sized area of all session entries |
| Marshalling.MarshalSessionList | src/harness/proto_conversion.cc:247-253 | The session entries, one after another |
| Marshalling.MarshalTpmSession | src/harness/proto_conversion.cc:327-367 | One authorization entry; sizes wrap at 16 bits together with the bytes copied |
| Marshalling.SessionWraps | src/harness/proto_conversion.cc:334-364 | Sizes wrap at 16 bits and attributes at 8, and the first bytes are kept |
| Marshalling.MarshalledSessionsParse | src/harness/proto_conversion.cc:327-367 | Whatever sessions are marshalled, even with wrapped sizes, the area parses to exactly their entries |
| Marshalling.MarshalTpm2b | src/harness/proto_conversion.cc:286-298 | Size and bytes of a TPM2B, if they fit |
| Marshalling.MarshalTpmtRsaDecrypt | src/harness/proto_conversion.cc:508-522 | The scheme, with the hash exactly for OAEP |
| Marshalling.MarshalCommandHeader | include/harness/proto_conversion.h:25-46 | The 10-byte header, if it fits |
| Marshalling.PatchCommandSize | include/harness/proto_conversion.h:49-53 | Only the four size bytes change |
| FuzzLoop.MarshalledLayout | src/harness/proto_conversion.cc:226-263 | Every marshalled command is a frame of at least 10 bytes; one with sessions has them, exactly, at offset 18, and for Clear, CreatePrimary, Create, Load, RsaDecrypt and NvDefineSpace that is where the layer looks for the command's code |
| FuzzLoop.TableFitsMessages | include/harness/command_attributes.h:28-49 | The table's counts are those of the messages: handles before the sessions, sessions exactly where handles are authorized, and no kind loads an object unreported |
| FuzzLoop.CodesByKind | src/harness/proto_postprocessors.cc:41-162 | The code of each kind of message, in numbers |
| FuzzLoop.SessionsAreAField | src/harness/proto_postprocessors.cc:41-162 | A message has sessions, and tag 0x8002 once normalized, exactly if it has a field for them |
| FuzzLoop.MarshalThenPatch | src/proto-fuzzer.cc:45-55 | A message for the layer's session, alone in its area, is always sent as the authorized command |
| FuzzLoop.ProcessMessage | src/proto-fuzzer.cc:44-57 | One turn sends exactly the patched command and leaves the layer in the state after the response; messages that do not marshal are skipped |
| FuzzLoop.RunSequence | src/proto-fuzzer.cc:36-61 | Over all messages, what is sent and the final state are those of the value-level loop |
| FuzzLoop.LoopSends | src/proto-fuzzer.cc:44-56 | For each message, what is sent is nothing if it does not marshal, else the marshalled command with 64 spare bytes, as the layer patches it after all earlier exchanges |
| FuzzLoop.LoopSendsAll | src/proto-fuzzer.cc:44-56 | The whole list sent is every command of the run, as patched at its time |
| FuzzLoop.LoopAuthorizes | src/proto-fuzzer.cc:44-56 | What is sent for a message of the layer's session, alone in its area, is the authorized command |
| FuzzLoop.LoopIsExchanges | src/proto-fuzzer.cc:44-57 | The loop is a run of exchanges as `Lockstep` has them |
| FuzzLoop.MessageOnWire | src/harness/proto_postprocessors.cc:41-162 | The bytes of a normalized message have its kind's code, and in their area exactly its sessions |
| FuzzLoop.MessageKeepsNames | src/proto-fuzzer.cc:44-57 | No normalized message can make a recorded Name wrong |
| FuzzLoop.MessageKeepsLockstepExactly | src/proto-fuzzer.cc:44-57 | Every answer to a normalized message keeps lockstep if and only if: when one of its sessions is the layer's, or the layer follows its kind and its first session is live, the layer follows its kind and its first session is the layer's |
| FuzzLoop.LoopStaysInLockstep | src/proto-fuzzer.cc:36-57 | Fuzzing any normalized messages against an orderly TPM in step on nonces ends in lockstep, Names included, and the HMAC of what is sent for the next message verifies |
| SeedParsers.ProtoSessions | tools/seed-generation/tpm2_commands.py:213-250 | For every list of sessions, inverts the encoder of authorization areas |
| SeedParsers.SessionsInvert | tools/seed-generation/tpm2_commands.py:213-250 | Parsing an encoded area gives the sessions it was made of |
| SeedParsers.SessionThere | tools/seed-generation/tpm2_commands.py:216-248 | One turn consumes exactly one encoded session, of at least 9 bytes |
| SeedParsers.CutAreaRaises | tools/seed-generation/tpm2_commands.py:216-230 | An area that ends behind a session's nonce makes the parser raise, whatever comes before |
| SeedParsers.Tpm2bThere | tools/seed-generation/tpm2_commands.py:69-72 | A TPM2B anywhere in the bytes is cut out whole, with the offset behind it |
| SeedMessages.ProtoPcrSelection | tools/seed-generation/tpm2_commands.py:184-210 | Inverts the encoder of PCR selections, for every list |
| SeedMessages.PcrListInverts | tools/seed-generation/tpm2_commands.py:184-210 | Parsing an encoded list gives its count and all selections |
| SeedMessages.ShortListRaises | tools/seed-generation/tpm2_commands.py:191-195 | A list with fewer selections than it says makes the parser raise |
| SeedMessages.SensitiveInverts | tools/seed-generation/tpm2_commands.py:79-104 | Both nested TPM2Bs and all sizes are recovered |
| SeedMessages.PublicInvertsExactly | tools/seed-generation/tpm2_commands.py:107-181 | `_proto_public` inverts the encoder if and only if no scheme hash is encoded or the misreading happens to do no harm |
| SeedMessages.MisreadUnique | tools/seed-generation/tpm2_commands.py:149-162 | A unique field read two bytes early comes out right only if it repeats its own length |
| SeedMessages.HmacKeyIsMisread | tools/seed-generation/tpm2_commands.py:149-162 | An HMAC key with SHA-256 and an empty unique field comes back with two zero bytes in it, and is otherwise right |
| SeedMessages.OtherTypesRaise | tools/seed-generation/tpm2_commands.py:126-166 | Exactly the types RSA and KEYEDHASH are read |
| SeedCommands.PublicRecovered | tools/seed-generation/tpm2_commands.py:107-181 | Without a scheme hash every field that a message has a place for is recovered, field by field |
| SeedCommands.CreatePrimaryRoundTrip | tools/seed-generation/tpm2_commands.py:529-559 | Hierarchy, sessions, sensitive data, outside info and PCR list are recovered from the parameters; the public area exactly under the condition above; no message for hierarchies from 2^31 on |
| SeedCommands.CreatePrimaryRecovers | tools/seed-generation/tpm2_commands.py:529-559 | The same field by field, for every session and selection |
| SeedCommands.CreatePrimaryWithoutSessions | tools/seed-generation/tpm2_commands.py:536-542 | Without sessions there is no area, and the rest is recovered |
| SeedCommands.NvDefineSpaceRoundTrip | tools/seed-generation/tpm2_commands.py:1119-1172 | Every field is recovered, exactly when the name algorithm has a name |
| SeedCommands.NvDefineSpaceWithoutSessions | tools/seed-generation/tpm2_commands.py:1126-1132 | Without sessions there is no area, and the rest is recovered |
| SeedCommands.StartAuthRoundTrip | tools/seed-generation/tpm2_commands.py:622-672 | Every field a message can hold is recovered, exactly when its identifiers have names and its handles fit |
| SeedCommands.GeneratedStartAuthIsCaptured | tools/seed-generation/tpm2_commands.py:607-620 | Every generated StartAuthSession is well formed, and the layer judges it by its fields |
| SeedCommands.AreaSurvives | tools/seed-generation/tpm2_types.py:356-368 | For every list of sessions: encode in Python, parse in Python, marshal in C++ gives the same area |
| SeedCommands.AreasAgree | tools/seed-generation/tpm2_types.py:356-368 | The generator's one-session area is the one the marshaller back-patches |
| SeedCommands.ClearAgrees | tools/seed-generation/tpm2_commands.py:260-296 | Marshalling the message gives exactly the generator's bytes |
| SeedCommands.SetPrimaryPolicyAgrees | tools/seed-generation/tpm2_commands.py:307-368 | A command exists exactly for values that fit, with a handle below 2^31; marshalling its message gives exactly its bytes |
| SeedCommands.PcrSetAuthPolicyAgrees | tools/seed-generation/tpm2_commands.py:1660-1713 | Marshalling the message gives exactly the generator's bytes |
| GeneratorAgreement.GetRandomAgrees | tools/seed-generation/tpm2_commands.py:562-585 | The two write the same bytes; counts over 16 bits do not marshal |
| GeneratorAgreement.CreateAgrees | tools/seed-generation/tpm2_commands.py:444-455 | The same bytes, with the sessions put back into the message |
| GeneratorAgreement.CreatePrimaryAgrees | tools/seed-generation/tpm2_commands.py:515-559 | The same bytes, for any sessions |
| GeneratorAgreement.NvDefineSpaceAgrees | tools/seed-generation/tpm2_commands.py:1110-1172 | The same bytes, for any sessions |
| GeneratorAgreement.LoadAgrees | tools/seed-generation/tpm2_commands.py:1440-1461 | The same bytes |
| GeneratorAgreement.RsaDecryptAgrees | tools/seed-generation/tpm2_commands.py:852-915 | The same bytes if and only if the scheme is not OAEP without a hash |
| GeneratorAgreement.RsaEncryptAgrees | tools/seed-generation/tpm2_commands.py:1511-1563 | The same bytes if and only if the scheme is not OAEP without a hash |
| GeneratorAgreement.RsaSchemesAgree | src/harness/proto_conversion.cc:508-522 | The two write the same scheme, but for two zero bytes with OAEP and no hash |
| GeneratorAgreement.MakeCredentialAgrees | tools/seed-generation/tpm2_commands.py:1584-1606 | The same bytes |
| GeneratorAgreement.PcrEventAgrees | tools/seed-generation/tpm2_commands.py:1635-1652 | The same bytes |
| GeneratorAgreement.PcrAllocateAgrees | tools/seed-generation/tpm2_commands.py:985-1012 | The same bytes, for handles that fit the enum |
| GeneratorAgreement.PcrReadAgrees | tools/seed-generation/tpm2_commands.py:926-954 | The same bytes |
| GeneratorAgreement.StartAuthOnWire | src/harness/proto_conversion.cc:48-64 | A StartAuthSession message is marshalled to the command with its fields in order, and the layer finds it compatible exactly when it is plain |
| SeedRun.GeneratorWritesSeed | tools/seed-generation/tpm2_commands.py:607-620 | The generator writes the two commands of the seed byte for byte |
| SeedRun.SessionStarts | src/harness/session_auth.cc:569-584 | The seed's first command and its answer arm the layer |
| SeedRun.DefineIsAuthorized | src/harness/session_auth.cc:461-554 | The seed's second command is sent with the bytes that the TPM expects |

## Left out

- Lockstep.RunKeepsLockstep: for runs in step, with buffers below 4 GiB, and commands that keep Names; without the first or the last it is false (see above). Object Names have at most 68 bytes, as TPM Names do.
- PatchTheory.PatchingIsIdempotent: for buffers below 4 GiB, beyond which the size field wraps; the marshaller stops at 1 MiB.
- PatchTheory.PatchedParses: for buffers below 4 GiB, for the same reason; so are the statements of `Lockstep`, `SenderConditions`, `HmacCheck` and `OutOfStep` about commands to be sent.
- HmacCheck.VerifiesExactly: is about the first HMAC only; whether the TPM accepts the command (enough sessions, good parameters) is for the TPM to say.
- SeedMessages.PublicInvertsExactly: a message has no place for symmetric key bits and mode nor for a scheme hash, so these are not recovered.
- SessionAuth.SessionState.Init: a null pointer with a non-zero size is not modelled; nonce and key are values.
- FuzzLoop.RunSequence: response buffers have the response's size; the platform calls around the loop are not modelled.
- Commands with several sessions: the layer passes them through, and so does the model.
- The structure marshalers of Tss2_MU: the library is not part of this model, so agreement with the Python encoders is proved where the C++ code writes the bytes itself, and elsewhere with the library's fields taken as the generator encodes them.
- OpenSSL: hash functions are arbitrary, so nothing depends on collisions or on how messages are fed in pieces.
- Protobuf reflection: messages are values with their fields in order; a field type with no marshaler is not modelled.
- Attribute lists given as Python lists and the OR-ing of their bits: attributes are numbers.
- TPMCreate.to_proto: it skips the authorization area and drops the sessions, so it is no inverse.
- Normalization and post-processing of messages beyond tag and code of the header (`FuzzLoop.Normalized`), TPM platform calls and process lifecycle, file handling and printing: no logic of the protocol.
- The table of name extractors: its two entries are two branches.
