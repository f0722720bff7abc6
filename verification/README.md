# Remote signing through PKCS#11: a verified model

A Linux program signs with a key that lives on another machine. It loads a PKCS#11
module, the module asks a bridge, the bridge asks a server over RPC, and the server
signs with a key from its certificate store. This project models that path and proves
what it promises.

## How the model is built

- `Pkcs11.dfy` is the module as a state machine over values: 16 session slots, one
  signing operation in each, one search cursor, a fixed table of key objects. Its
  environment `Env` answers every request to the server and every allocation as it
  likes, each time anew; it also holds the hash functions.
- `Ksp11.dfy` is the module in the form of the C code: arrays of structs changed in
  place, a heap with `malloc` and `free`, one method for each entry point and loop.
  Every method is proved to take exactly the step of the state machine that bears its
  name. `Layout.dfy` says how structs and heap blocks stand for abstract slots and that
  each block has exactly one owner.
- `SigningCalls.dfy`, `EntryPoints.dfy` and `Objects.dfy` say for every call when it succeeds,
  with which result, and with which code it fails, in terms of the mechanism, the data, the
  server's replies, the allocations and the certificates, not of the state machine.
- `Runs.dfy`, `MultiPart.dfy`, `Buffers.dfy`, `Finding.dfy` and `Attributes.dfy` hold
  the properties of the module over all calls and all runs.
- `Bytes.dfy`, `EcdsaCodec.dfy`, `SignatureLength.dfy` and `EcSigning.dfy` are the
  ECDSA signature codec and its lengths (section 2.2.3 of RFC 3279; sections 8.1.3,
  8.3 and 10.1 of X.690).
- `FileStore.dfy`, `KeyCache.dfy`, `RsaBlob.dfy`, `Thumbprint.dfy`, `DigestInfo.dfy` and
  `Hashes.dfy` are the server's store, the client's key list and the formats between them.
- `Meaning.dfy` puts the whole path together: every signature that a caller receives goes
  back to the `C_SignInit` that asked for it and to the request that carried the intended
  digest, hash and padding; and it is what the caller asked for exactly under conditions on
  key, parameter and data. `ByCertificate.dfy` starts from a certificate in the store and
  ends at a signature by its key.

`dafny verify dfyconfig.toml` checks everything.

Where the code departs from a standard, from its sibling or from what a caller asks, the
model follows the code and a lemma says so exactly:

- the store takes the scheme from its own key and not from the mechanism. An object whose
  certificate cannot be read counts as RSA, and a caller who asks for `CKM_SHA256_RSA_PKCS`
  with it gets an ECDSA signature if the key in the store is EC. The scheme is the
  mechanism's exactly when object and key are both EC or both not (`Meaning.AskedExactly`,
  `Meaning.UnreadKeySignsWithEcdsa`);
- the parameter of a PSS mechanism only names a hash. A hash that the server does not know
  becomes SHA-256, for a mechanism with a hash of its own the name is ignored, and mask
  generation and salt length are ignored always. `C_SignInit` refuses none of these, and a
  signature that is made is the one asked for exactly when the parameter can be met
  (`Meaning.AskedExactly`, `Runs.ParameterOnlyNamesHash`, `Runs.UnknownHashBecomesSha256`);
- `CKM_RSA_PKCS` does not sign its data as they are: a bare digest is put into a DigestInfo,
  and the module's own SHA-384 and SHA-512 rows are replaced by standard ones. The PKCS#1
  block is over the data exactly when they are a standard SHA-256 DigestInfo
  (`Meaning.AskedExactly`, `DigestInfo.AcceptedIsSignedAsIs`);
- a macOS message algorithm does not hash a message that has the prefix and the length of a
  DigestInfo; what follows the prefix is signed, under the hash of the prefix
  (`DigestInfo.SessionSignsMessage`, `DigestInfo.PrefixedMessageIsNotHashed`);
- a short buffer ends the signing operation, while sections 5.2 and 5.11 of PKCS#11 v2.40
  keep it (`Runs.RetryAfterShortBufferFails`);
- after a size query, further data and further `C_SignUpdate` input are accepted but not
  signed (`MultiPart.LateInputIsIgnored`, `Runs.CachedIsDelivered`);
- a standard SHA-384 or SHA-512 DigestInfo is refused (`DigestInfo.StandardAccepted`);
- the search cursor outlives `C_Finalize` (`Finding.CursorOutlivesFinalize`);
- the wrapper around an EC point is DER only up to 127 bytes (`Attributes.PointIsOctetString`);
- with an input of more than 2^63 bytes the doubling loop of `C_SignUpdate` does not end
  (`Buffers.DoublingEnds`);
- with one of 2^64 bytes or more the sum of the sizes wraps too, so the buffer stays too
  small for the copy; an update is in order exactly up to 2^63 bytes
  (`Buffers.UpdateInOrderExactly`);
- the two thumbprint normalisers agree exactly on text without a letter beyond f from whose
  ends trimming takes nothing but spaces (`Thumbprint.NormalisersAgree`), and the store's is
  idempotent exactly where, after trimming, no separators at either end hide white space
  (`Thumbprint.NormalisersIdempotent`, with witnesses in `Thumbprint.NormalisersDiffer`);
- a thumbprint of which trimming leaves nothing but separators finds the first certificate,
  and the service stops the empty string only (`FileStore.EmptyTargetFindsFirst`,
  `FileStore.OnlyEmptyStringIsStopped`);
- raw input of a wrong length is sent and refused by the server (`Meaning.LengthRefusals`);
- the slack for a second, longer signature is not enough for every field
  (`SignatureLength.SlackEnough`, `SignatureLength.SecondCallFits`).

## Model

| member | source | states |
|---|---|---|
| Meaning.EverySignatureAsMeant | ksp11/ksp11.c:1062-1331 | After any calls from the start, whenever a signing call returns a signature, a C_SignInit that succeeded started the operation, and a request in the log carries the digest intended for the data, the mechanism's padding and the hash that the C_SignInit settled; the store signed that digest with the key of the object that the C_SignInit named. The data are those of the call, or of the size query since then that left the signature behind. What the store did is what the caller asked for, in scheme, PSS parameter and PKCS#1 block, if and only if key type, parameter and data fit. |
| SigningCalls.SignOutcome | ksp11/ksp11.c:1099-1214 | A signing call without a cached signature succeeds if and only if its data can be signed and everything is in order: the allocations, a first reply of 1 byte to 1 MiB, a second at most 64 bytes longer, and for EC a key of 1 to 1024 bits and a DER signature whose integers fit it. Then it returns the second reply, for EC as r and s in field width, with its length; a size query keeps it and returns the length, a short buffer gets the length and BUFFER_TOO_SMALL; every call but the size query ends the operation. Otherwise it returns DATA_INVALID exactly for bad data, HOST_MEMORY exactly without memory for the signature, else FUNCTION_FAILED. The requests sent are in the log. |
| SigningCalls.SignChecks | ksp11/ksp11.c:1279-1331 | The checks before that, each code exactly where it belongs: not initialised, unknown handle, no operation, no length pointer; all without effect. |
| SigningCalls.RefusedOrPlanned | ksp11/ksp11.c:1099-1145 | The digest sent is the one of the plan: the hash of the data for a hashing mechanism, a bare or unwrapped digest for raw RSA, up to 64 bytes unchanged for raw PSS and ECDSA, with the settled hash or that of the length; refused exactly for other data. |
| SigningCalls.ProduceOutcome | ksp11/ksp11.c:1099-1194 | Making a signature succeeds exactly when all steps are in order, with its exact result, code and requests. |
| SigningCalls.FieldIsWidth | ksp11/ksp11.c:1177-1178 | The field width is the number of bytes that just holds the key size, and is accepted exactly from 1 to 1024 bits. |
| Meaning.AskedExactly | internal/certstore/file_store.go:327-345 | A signature that is made has the mechanism's scheme if and only if object and store key are both EC or both not; the hash, mask generation and salt length of the PSS parameter if and only if there is none or it is one of the store's combinations, that of the mechanism's own hash where it has one; and for raw RSA a PKCS#1 block over exactly the data if and only if these are a standard SHA-256 DigestInfo. |
| Meaning.AskedUnderHash | ksp11/ksp11.c:1260-1270 | A PSS signature is under the hash that the parameter names exactly when that is SHA-256, SHA-384 or SHA-512 and does not contradict the mechanism's own hash. |
| Meaning.UnreadKeySignsWithEcdsa | ksp11/ksp11.c:510-519 | At the failing input: for an object whose certificate could not be read and whose key in the store is EC, CKM_SHA256_RSA_PKCS is allowed and returns the store's ECDSA signature. |
| Meaning.ProduceAsMeant | ksp11/ksp11.c:1099-1194 | One signing: a signature that comes out is the one of the second request; that request is in the log with the intended digest, the hash that C_SignInit settled and the mechanism's padding, and the store signed it with the key that the thumbprint names. |
| Meaning.RunKeepsExplained | ksp11/ksp11.c:1196-1277 | After any calls, every active operation has the key, mechanism and hash of the successful C_SignInit that started it and has been active since, and every cached signature was made by a later size query of that session from that query's data. |
| Meaning.RunLogGrows | internal/kspbridge/bridge_linux.go:175-216 | Over any run, what a call left in the request log stays there unchanged. |
| Meaning.LengthRefusals | internal/certstore/file_store.go:287-293 | The server's length check refuses exactly raw PSS and raw ECDSA input of a length that does not belong to its hash; never a hashing mechanism, never raw RSA. |
| Meaning.PaddingRefusals | internal/certstore/file_store.go:327-341 | PSS is never asked for an EC object; the server refuses the padding if and only if PSS is asked and the store's key is EC, so for an object taken for RSA it signs without PSS. |
| Meaning.TypeComesFromCertificate | ksp11/ksp11.c:504-526 | The table has one object for each answered get, in order and under its thumbprint; those of type EC are exactly those whose certificate has an EC key. |
| Runs.SizeQueryThenSign | ksp11/ksp11.c:1074-1097 | After a successful size query, the next signing call of that session with room enough returns exactly the announced length and exactly the queried signature and sends nothing, whatever calls come in between short of ending the operation, and however random the server is. |
| Runs.CachedSurvivesRun | ksp11/ksp11.c:1074-1085 | A cached signature survives every list of calls that does not end its operation, close its session or finalize. |
| Runs.CachedIsDelivered | ksp11/ksp11.c:1074-1097 | With a cached signature a signing call makes no request and no allocation and ignores its data; it hands out the cached bytes, or the needed length when the buffer is short, and ends the operation. |
| Runs.SigningEndsOperation | ksp11/ksp11.c:1062-1214 | A signing call leaves an operation active exactly after a successful size query or with a null length pointer. |
| Runs.RetryAfterShortBufferFails | ksp11/ksp11.c:1203-1208 | After "buffer too small" every further attempt to sign is refused: the operation is gone. |
| Runs.SignInitMeaning | ksp11/ksp11.c:1216-1277 | C_SignInit succeeds exactly for an open idle session, an object of the table and a table mechanism for its type of key; the new operation has that key, that mechanism's own hash and padding, the hash number that mechanism and PSS parameter settle, and no input; failure changes nothing. |
| Runs.ParameterOnlyNamesHash | ksp11/ksp11.c:1257-1271 | Where C_SignInit succeeds, two parameters have the same outcome if and only if they settle the same hash; nothing else of them matters. |
| Runs.UnknownHashBecomesSha256 | ksp11/ksp11.c:1267-1270 | Raw PSS asked for SHA-512/256 succeeds and is the operation asked for SHA-256, whatever mask generation and salt length either names. |
| Runs.OpenGivesFreshSession | ksp11/ksp11.c:700-731 | C_OpenSession is refused for lack of room exactly when 16 sessions are open; else the handle was never used before, its session has no operation, and all other sessions keep theirs. |
| Runs.ClosedForEver | ksp11/ksp11.c:165-175 | A handle that was given out and is no longer open never opens again, over any calls, across finalize and initialize. |
| Runs.ClosedHandleRefused | ksp11/ksp11.c:733-744 | Every call that names a handle that is not open is refused and changes nothing. |
| EntryPoints.CloseOutcome | ksp11/ksp11.c:733-744 | C_CloseSession succeeds exactly for an open handle of an initialised module; then that handle is not open, every other session is as it was, and one slot more is free. |
| EntryPoints.CloseAllOutcome | ksp11/ksp11.c:746-760 | C_CloseAllSessions succeeds exactly for slot 0 of an initialised module; then no session is open and nothing else has changed. |
| EntryPoints.FinalizeOutcome | ksp11/ksp11.c:535-553 | C_Finalize succeeds exactly without a reserved argument; then no session is open and there is no object. |
| EntryPoints.ClosedIsRefusedForEver | ksp11/ksp11.c:733-760 | After a successful close by any of the three, over any further calls, every call with that handle is refused without effect. |
| EntryPoints.OpenOutcome | ksp11/ksp11.c:700-731 | C_OpenSession succeeds exactly for slot 0, a place for the handle, an initialised module, a read-only session and fewer than 16 open; else the first failed check gives the code. |
| EntryPoints.InitializeOutcome | ksp11/ksp11.c:473-533 | C_Initialize succeeds exactly for a module not yet initialised, without a reserved argument, with the bridge up and memory for the table; then no session is open and the table is that of the answers; else the first failed check gives the code. |
| EntryPoints.SignUpdateOutcome | ksp11/ksp11.c:1292-1319 | C_SignUpdate succeeds exactly for an active operation, with memory if the part does not fit; then the part is behind the input and the rest of the operation is as it was; a failure leaves the operation as it was. |
| EntryPoints.SignInitRefusals | ksp11/ksp11.c:1216-1240 | Each code of C_SignInit exactly where it belongs, in the order of the checks. |
| EntryPoints.MechanismsOfKeys | ksp11/ksp11.c:234-241 | An RSA key takes exactly the eight RSA mechanisms, an EC key exactly the four ECDSA ones. |
| EntryPoints.FindInitOutcome | ksp11/ksp11.c:864-892 | C_FindObjectsInit succeeds exactly in an open session without a search under way, with memory if there are objects; then a search stands before the first match. |
| EntryPoints.FindOutcome | ksp11/ksp11.c:894-914 | C_FindObjects succeeds exactly in an open session with a search under way and a place for the handles; it hands out the next ones, as many as are left or asked for. |
| EntryPoints.FindFinalOutcome | ksp11/ksp11.c:916-929 | C_FindObjectsFinal succeeds exactly in an open session; then no search is under way. |
| Runs.OtherCallsKeepOp | ksp11/ksp11.c:168-198 | No call on another session changes a session's operation. |
| Pkcs11.StepKeepsInv | ksp11/ksp11.c:157-198 | Every entry point keeps the invariant, whatever server and allocator answer: distinct handles below the next one, at most 16 open, active operations inside the object table with a mechanism for that key, input within a capacity that the growth rule allows. |
| Pkcs11.Run | ksp11/ksp11.c:473-1331 | The invariant holds after every list of calls, and the next handle never goes back. |
| Pkcs11.GrowKeepsRule | ksp11/ksp11.c:1304-1315 | The capacity is always 0 or 256 times a power of two, and below twice the input once above 256. |
| Pkcs11.FindSession | ksp11/ksp11.c:168-175 | The first open slot with the handle, or none. |
| Pkcs11.BuildObjects | ksp11/ksp11.c:497-527 | The objects made from the answers of the indexed gets have the handles 1, 2, 3 and so on without gaps, no more than were announced. |
| Objects.ObjectOfAnswer | ksp11/ksp11.c:504-526 | Every answered get makes one object, in order, from its own answer. |
| Objects.AnswerOfObject | ksp11/ksp11.c:504-526 | Every object of the table comes from an answered get. |
| MultiPart.MultiPartRefinesSinglePart | ksp11/ksp11.c:1279-1331 | For every mechanism and every list of chunks: C_SignInit, one C_SignUpdate for each chunk and C_SignFinal send the same requests, reply the same and leave the same visible state as C_SignInit and one C_Sign of the concatenation. |
| MultiPart.LateInputIsIgnored | ksp11/ksp11.c:1074-1097 | Input added after a size query is accepted but not signed: the reply is the one without it. |
| Buffers.DoublingEnds | ksp11/ksp11.c:1304-1308 | On 64-bit sizes the doubling loop ends if and only if at most 2^63 bytes are needed. |
| Buffers.UpdateInOrderExactly | ksp11/ksp11.c:1304-1318 | On 64-bit sizes that wrap, an update ends and its copy stays inside the buffer if and only if old and new input together are at most 2^63 bytes. |
| Buffers.MovedBelowCapacity | ksp11/ksp11.c:1304-1315 | All reallocations of a run together move fewer bytes than the final capacity. |
| Buffers.UpdatesCapacity | ksp11/ksp11.c:1292-1319 | That final capacity is the one the operation has after the updates. |
| Finding.FindIsComplete | ksp11/ksp11.c:864-914 | For any batch sizes and any calls in between, what a search has handed out is a prefix of the matching handles in table order, and all of them once a batch came back short. |
| Finding.MatchingMeaning | ksp11/ksp11.c:881-889 | The handles collected are increasing and exactly those of the objects that match every entry of the template. |
| Finding.OneIdOneObject | ksp11/ksp11.c:850-856 | Among objects with distinct ids a template with one CKA_ID finds exactly its object. |
| Objects.FoundExactly | ksp11/ksp11.c:813-862 | A search finds exactly the objects for which every entry of the template asks for class, key type, label or id and gives exactly the bytes of that attribute; an entry of any other kind finds nothing. |
| Finding.CursorOutlivesFinalize | ksp11/ksp11.c:535-553 | After finalize and initialize a new search is refused exactly when one was under way before, and the old handles go on being handed out. |
| Layout.OwnedExactly | ksp11/ksp11.c:179-198 | Between calls the live heap blocks are exactly the non-null buffer and cache pointers, and no two fields hold the same block: no leak, no sharing, no double free. |
| Ksp11.Module.constructor | ksp11/ksp11.c:148-192 | The globals at load time: an uninitialised module without sessions, objects or heap blocks. |
| Ksp11.Module.Malloc | ksp11/ksp11.c:1156-1162 | Null when the allocator refuses, else a new block of the size asked for, owned by the caller. |
| Ksp11.Module.Free | ksp11/ksp11.c:194-198 | Only a block that the running function owns can be freed, so none is freed twice. |
| Ksp11.Module.FindSlot | ksp11/ksp11.c:168-175 | The loop finds the first open slot with the handle. |
| Ksp11.Module.SignReset | ksp11/ksp11.c:194-198 | Frees exactly the two blocks of the slot and zeroes its signing state; all other slots keep theirs. |
| Ksp11.Module.FreeState | ksp11/ksp11.c:194-198 | The two frees and the memset on the module's own structs. |
| Ksp11.Module.FindClosedSlot | ksp11/ksp11.c:715-724 | The loop finds the first closed slot. |
| Ksp11.Module.OpenSession | ksp11/ksp11.c:700-731 | Takes the OpenSession step: same refusals in the same order, same new state. |
| Ksp11.Module.CloseSession | ksp11/ksp11.c:733-744 | Takes the CloseSession step and gives the slot's blocks back. |
| Ksp11.Module.CloseAllSessions | ksp11/ksp11.c:746-760 | The loop closes every slot and changes nothing else. |
| Ksp11.Module.Finalize | ksp11/ksp11.c:535-553 | Takes the Finalize step and leaves nothing on the heap. |
| Ksp11.Module.Initialize | ksp11/ksp11.c:473-533 | Takes the Initialize step; its memset of the signing states forgets no block. |
| Ksp11.Module.MakeObjects | ksp11/ksp11.c:504-526 | The loop over the indexed gets makes the objects of the specification, skipping failed gets. |
| Ksp11.Module.ClearSlots | ksp11/ksp11.c:529-530 | The memsets clear all slots and lose no block. |
| Ksp11.Module.FindObject | ksp11/ksp11.c:394-401 | The loop finds the object with the handle, at handle less one, or none. |
| Ksp11.Module.FindMech | ksp11/ksp11.c:209-232 | The loop over the table finds a mechanism's row, or none. |
| Ksp11.Module.SignInit | ksp11/ksp11.c:1216-1277 | Takes the SignInit step, with the hash number that the mechanism or the PSS parameters name. |
| Ksp11.Module.GrowCapacity | ksp11/ksp11.c:1305-1308 | The doubling loop reaches the capacity of the growth rule without overflow of 64 bits. |
| Ksp11.Module.SignUpdate | ksp11/ksp11.c:1292-1319 | Up to 2^63 bytes of input, exactly where the C code is in order, takes the SignUpdate step: the buffer holds the old input followed by the part; a failed reallocation changes nothing. |
| Ksp11.Module.MoveInput | ksp11/ksp11.c:1309-1318 | A grown buffer holds the old input followed by the part. |
| Ksp11.Module.SwapBuffer | ksp11/ksp11.c:1309-1314 | The new block becomes the slot's buffer and the old one is freed once. |
| Ksp11.Module.AppendInput | ksp11/ksp11.c:1316-1318 | A part that fits is copied behind the input. |
| Ksp11.Module.BridgeSignHash | internal/kspbridge/bridge_linux.go:175-216 | One request; its length without room, its bytes when they fit, else failure. |
| Ksp11.Module.BuildRequestDigest | ksp11/ksp11.c:1099-1145 | The digest and hash number of the specification, or its refusal, for every mechanism and type of key. |
| Ksp11.Module.RequestSignature | ksp11/ksp11.c:1149-1174 | Two requests around one allocation with slack; on every failure the heap is as before. |
| Ksp11.Module.FillSignature | ksp11/ksp11.c:1163-1174 | The second request fills the block when its answer fits; otherwise the block is freed. |
| Ksp11.Module.DerToRaw | ksp11/ksp11.c:367-390 | A new block with r and s in field width exactly when the DER is one, both fit and the allocation succeeds; nothing is left behind otherwise. |
| Ksp11.Module.ConvertToRaw | ksp11/ksp11.c:1176-1194 | EC signatures are exchanged for raw ones and the DER block is freed on every path. |
| Ksp11.Module.MakeSignature | ksp11/ksp11.c:1099-1194 | Ends with the signature as the function's only block, or with an error and none. |
| Ksp11.Module.HandOver | ksp11/ksp11.c:1196-1214 | Caches, refuses or copies out the signature; the caller's buffer holds it at the front and is otherwise untouched, and its block ends up owned by the slot or freed. |
| Ksp11.Module.CopyOut | ksp11/ksp11.c:1209-1210 | The signature goes to the front of the caller's buffer, which is none of the module's arrays. |
| Ksp11.Module.CacheSignature | ksp11/ksp11.c:1196-1202 | The signature's block passes to the slot. |
| Ksp11.Module.TakeCached | ksp11/ksp11.c:1075-1079 | The cached block passes from the slot to the function. |
| Ksp11.Module.SignSlot | ksp11/ksp11.c:1062-1214 | do_sign takes the signing step on every path, and every block it touches is owned once or freed. |
| Ksp11.Module.Sign | ksp11/ksp11.c:1279-1290 | Takes the Sign step and writes nothing to the caller but the signature that it replies. |
| Ksp11.Module.SignFinal | ksp11/ksp11.c:1321-1331 | Takes the SignFinal step on the slot's own buffer, writing to the caller likewise. |
| Ksp11.Module.MatchesTemplate | ksp11/ksp11.c:813-862 | The loop answers whether an object matches every entry. |
| Ksp11.Module.CollectMatches | ksp11/ksp11.c:881-889 | The loop collects the handles of matching objects. |
| Ksp11.Module.FindObjectsInit | ksp11/ksp11.c:864-892 | Takes the FindObjectsInit step; a failed allocation leaves an empty, inactive cursor. |
| Ksp11.Module.FindObjects | ksp11/ksp11.c:894-914 | Writes the next handles to the front of the caller's array and nothing behind them. |
| Ksp11.Module.CopyHandles | ksp11/ksp11.c:908-911 | The loop copies as many handles as are left or asked for. |
| Ksp11.Module.FindObjectsFinal | ksp11/ksp11.c:916-929 | Takes the FindObjectsFinal step. |
| Ksp11.Module.GetAttributeValue | ksp11/ksp11.c:931-1040 | The refusals in order, then every entry of the caller's template answered on its own; the module's state stays. |
| Attributes.GetAttributeValues | ksp11/ksp11.c:948-1039 | The loop answers each entry independently of the others and returns the code of the worst fault: sensitive, then unknown, then a short buffer. |
| Attributes.AttrSize | ksp11/ksp11.c:403-454 | The size is that of the bytes that would be written; exactly the private components are sensitive. |
| Attributes.QueryEntry | ksp11/ksp11.c:949-1030 | The branches for one entry: what is written, the length left behind and the fault. |
| Attributes.SizesThenBytes | ksp11/ksp11.c:931-1040 | For any template, a data call with buffers of the sizes announced returns the same code and fills exactly the buffers of available attributes with exactly their bytes. |
| Attributes.NeverWritten | ksp11/ksp11.c:953-962 | Sensitive and unknown attributes are never written, and the missing mark is set exactly where there is no value. |
| Objects.EntryOutcome | ksp11/ksp11.c:948-1030 | One entry for the object of any certificate: buffer, length and fault, with the bytes named from the key information: class 3, key type 0 or 3, the decoded thumbprint, the subject, each flag by name, modulus and exponent of an RSA key, parameters and wrapped point of an EC key. |
| Objects.CodeOutcome | ksp11/ksp11.c:1032-1039 | The code for a whole template: a secret attribute before a missing one before a short buffer, else OK. |
| Objects.ValueIsBytes | ksp11/ksp11.c:504-526 | An object made from key information has exactly these attributes and its key size. |
| Attributes.PointIsOctetString | ksp11/ksp11.c:303-311 | The wrapped EC point is a DER OCTET STRING exactly up to 127 bytes. |
| EcdsaCodec.PackEcdsaSignature | internal/certstore/ncrypt.go:225-238 | Packing fails exactly on short input or unencodable length, else gives the DER of the two halves. |
| EcdsaCodec.PackThenUnpack | ksp11/ksp11.c:367-390 | Packing raw r and s and unpacking at the same width returns the same bytes, zeros, sign bytes and long lengths included. |
| EcdsaCodec.UnpackThenPack | ksp11/ksp11.c:367-390 | Unpacking succeeds exactly on the DER of two integers that fit, and packing the result gives that DER back. |
| EcdsaCodec.SignatureRoundTrip | ksp11/ksp11.c:367-374 | Every encoded signature is read back, whatever follows it. |
| EcdsaCodec.SignatureUnique | ksp11/ksp11.c:367-374 | What is accepted is the one encoding of the values read. |
| EcdsaCodec.SignatureBytes | internal/certstore/ncrypt.go:232-237 | The bytes of a signature, one by one, for integers of up to 30000 bytes: SEQUENCE 0x30 and INTEGER 0x02 with their length bytes, r before s. |
| EcdsaCodec.HeaderBytes | internal/certstore/ncrypt.go:232-237 | The length bytes: the number up to 127, then 0x81 before one or 0x82 before two bytes. |
| EcdsaCodec.ContentMeaning | internal/certstore/ncrypt.go:233-235 | An INTEGER has the number's bytes behind a clear sign bit and none too many. |
| EcdsaCodec.FieldEncodable | ksp11/ksp11.c:1176-1183 | Every width that the module accepts has an encoding, at most 12 bytes longer than raw. |
| SignatureLength.SlackEnough | ksp11/ksp11.c:1147-1174 | 64 bytes of slack suffice for every two signatures by one key if and only if the largest value is below 2^263, so for every 32-byte order. |
| SignatureLength.SlackTight | ksp11/ksp11.c:1156-1159 | In a 32-byte field the difference of 64 bytes occurs. |
| SignatureLength.SecondCallFits | internal/kspbridge/bridge_linux.go:204-215 | For any order, the second call never reports a short buffer if and only if the longest signature fits the first one plus slack. |
| SignatureLength.LengthRange | ksp11/ksp11.c:1147-1162 | Signatures by a key have between 8 bytes and the length of the one of the two largest values, and both occur. |
| EcSigning.TwoRequestsMakeRaw | ksp11/ksp11.c:1147-1194 | For well-formed server signatures the two requests succeed exactly when the second fits, always up to 32-byte orders, and give r and s of the second in field width. |
| EcSigning.RawSurvives | ksp11/ksp11.c:1176-1194 | Raw r and s that a server packs are the bytes that the caller receives, up to 128-byte fields. |
| Hashes.NumbersKeepMeaning | internal/server/service.go:85-116 | The numbers of hash and padding mean the same in the module, the bridge, the protocol and the store. |
| Hashes.NumbersOutside | internal/kspclient/client.go:272-288 | Numbers and protocol values outside the enumerations: defaults, refusals and unknown hashes. |
| Hashes.GuessIsRight | ksp11/ksp11.c:323-332 | The hash guessed from a length has digests of that length exactly for 32, 48 and 64 bytes. |
| DigestInfo.ParseDigestInfo | ksp11/ksp11.c:336-363 | The parser with its table loop takes a bare digest by length, else one table row. |
| DigestInfo.StripInvertsPrefix | ksp11/ksp11.c:319-363 | Stripping inverts prefixing for every row and digest, and bare digests pass unchanged. |
| DigestInfo.AcceptedMeans | ksp11/ksp11.c:336-363 | What is accepted is a bare or once-prefixed digest of the hash found. |
| DigestInfo.AcceptedIsSignedAsIs | ksp11/ksp11.c:1138-1142 | The standard PKCS#1 block over an accepted input's digest is over the input itself if and only if the input is a standard SHA-256 DigestInfo. |
| DigestInfo.StandardAccepted | ksp11/ksp11.c:319-321 | A DigestInfo of section 9.2 of RFC 8017 is accepted exactly for SHA-256. |
| DigestInfo.ParsersAgree | mac-provider/TokenSession.m:85-102 | Linux and macOS strip alike exactly on inputs that are no SHA-384 or SHA-512 row of either table. |
| DigestInfo.SignDataRequest | mac-provider/TokenSession.m:55-152 | The branches of the session choose the digest, hash and padding of the specification. |
| DigestInfo.SessionSends | mac-provider/TokenSession.m:55-152 | What is sent in every case: a standard DigestInfo's content under its hash; bare data of digest length unchanged, under the digest algorithm's hash or the one of the length; else the hash of the data by the algorithm's hash or SHA-256; always under the algorithm's padding. |
| DigestInfo.SessionSignsMessage | mac-provider/TokenSession.m:55-152 | A message algorithm's request is the message's hash under its own hash and padding exactly when the message is no standard DigestInfo, or one that holds that very hash; otherwise it is the DigestInfo's content. |
| DigestInfo.PrefixedMessageIsNotHashed | mac-provider/TokenSession.m:90-102 | Every message made of a prefix and as many bytes as its hash has is sent as those bytes under that hash, whatever the algorithm. |
| DigestInfo.SessionLengthCheck | mac-provider/TokenSession.m:104-152 | The server refuses the session's digest length exactly for a bare digest given to a digest algorithm of another hash. |
| Thumbprint.NormalizeMeaning | internal/certstore/thumbprint.go:7-13 | On every text the pipeline leaves exactly the characters, after trimming, that are no separators, in upper case; and all such characters of the text exactly when trimming takes only spaces. |
| Thumbprint.NormalizeInBridge | internal/kspbridge/bridge_linux.go:218-231 | The one-pass loop computes the bridge's normal form. |
| Thumbprint.NormalisersAgree | internal/kspbridge/bridge_linux.go:218-231 | The two normalisers agree on a text if and only if it has no letter beyond f and trimming takes only spaces from its ends. |
| Thumbprint.NormalisersIdempotent | internal/certstore/thumbprint.go:7-13 | The bridge's normaliser is idempotent on every text; the store's if and only if, in the trimmed text, no white space other than the space has only separators before it or only separators behind it. |
| Thumbprint.HexTextNormalises | internal/certstore/thumbprint.go:5-13 | On every text of hex digits, colons, spaces and dashes the two normalisers agree and are idempotent. |
| Thumbprint.TabInFront | internal/certstore/thumbprint.go:8 | Every text with a tab in front normalises differently in bridge and store. |
| Thumbprint.TabBehindColon | internal/certstore/thumbprint.go:8-9 | On every text with a tab behind a leading colon the store's normaliser is not idempotent. |
| Thumbprint.NormalisersDiffer | internal/certstore/thumbprint.go:7-13 | Witnesses of each way to differ and of a tab inside doing no harm. |
| Thumbprint.HexDecodeInto | ksp11/ksp11.c:253-264 | Writes the bytes of whole digit pairs up to the capacity and nothing behind them. |
| Thumbprint.HexRoundTrip | ksp11/ksp11.c:245-264 | Decoding inverts upper-case hex up to the capacity. |
| Thumbprint.CopyToCChars | internal/kspbridge/bridge_common.go:57-70 | The C string read back is the text, cut to fit. |
| Thumbprint.ThumbprintSurvives | ksp11/ksp11.c:511-513 | A SHA-1 fingerprint survives hex, normalising, the C string and decoding into CKA_ID. |
| FileStore.LoadMeaning | internal/certstore/file_store.go:68-141 | Loading fails exactly on a faulty file; every identity loaded has its certificate's fingerprints and the key that belongs to it. |
| FileStore.LoadInOrder | internal/certstore/file_store.go:88-138 | The identities are those of the certificates with a key, in file order, each with its own certificate, key, and the upper-case hex of its own SHA-1 and SHA-256. |
| FileStore.Lookup | internal/certstore/file_store.go:301-320 | The first exact match of either fingerprint, else the first prefix match, else none. |
| FileStore.LookupIsUnique | internal/certstore/file_store.go:301-320 | That rule has one answer. |
| FileStore.LookupByFingerprint | internal/certstore/file_store.go:301-320 | In terms of the fingerprints: nothing is found exactly when none begins with the spelling; a first full match wins, else a first prefix match. |
| FileStore.FullThumbprintFindsOwn | internal/certstore/file_store.go:301-320 | With distinct fingerprints, any spelling of a full thumbprint, with any separators, case and white space around it, finds its own certificate wherever it stands, with that certificate's key. |
| FileStore.EmptyTargetFindsFirst | internal/certstore/file_store.go:309-317 | A thumbprint comes to nothing exactly when trimming leaves only separators, and every such thumbprint finds the first certificate of any store. |
| FileStore.HandleOutcome | internal/server/service.go:48-83 | The service's answer in every case, in the order of its checks: each error, and the signature with its scheme and padding. |
| FileStore.StoreNumbers | internal/certstore/file_store.go:286-296 | The store refuses exactly the hash numbers other than 1, 2 and 3 as unsupported, and takes padding 0 for PKCS#1. |
| FileStore.OnlyEmptyStringIsStopped | internal/server/service.go:48-67 | For a digest in order the service refuses the thumbprint if and only if it is the empty string; every other one that comes to nothing signs with the first key. |
| FileStore.ColonSignsWithFirst | internal/server/service.go:48-67 | A colon and a tab are such thumbprints. |
| FileStore.Store.constructor | internal/certstore/file_store.go:30-34 | No directory and no identities at start. |
| FileStore.Store.SetCertDir | internal/certstore/file_store.go:40-59 | Replaces the store as a whole, clears it for the empty name, and changes nothing on failure; keys always match their certificates. |
| FileStore.Store.LoadCertDir | internal/certstore/file_store.go:87-138 | The loop over the files loads what the specification says, or fails with it. |
| FileStore.Store.FindIdentity | internal/certstore/file_store.go:301-320 | The two search loops obey the lookup rule. |
| FileStore.Store.Dispatch | internal/certstore/file_store.go:327-355 | The switch on the key signs under the scheme for the key and padding, refusing PSS for EC and other keys. |
| FileStore.Store.SignHash | internal/certstore/file_store.go:286-356 | The checks, the lookup and the dispatch, in order. |
| KeyCache.CachedAgreesWithServer | internal/kspclient/client.go:121-164 | After any calls, a successful list is the filtered list of the server at some instant no older than 30 s and one call. |
| KeyCache.FailureChangesNothing | internal/kspclient/client.go:121-131 | Over any calls, those that the server does not answer leave no trace in the cache; a call fails exactly when that cache is stale or empty and the server does not answer; nothing stale is returned, and an empty list is never used again. |
| KeyCache.ReusedExactly | internal/kspclient/client.go:121-124 | The cached list is used without the server exactly when it is not empty and less than 30 s old; otherwise the reply decides. |
| KeyCache.ProjectInOrder | internal/kspclient/client.go:132-160 | The list holds exactly the certificates with a private key, in order, with every field of each entry. |
| KeyCache.InfoMeans | internal/kspbridge/bridge_common.go:38-55 | What an indexed get hands out: thumbprint and subject up to 63 and 511 characters, key size and public key. |
| KeyCache.TableIsList | ksp11/ksp11.c:497-527 | If the count and all gets see one list, the object table is that list in order; whatever happens in between, handles are 1 to n without gaps and n is at most the number announced. |
| KeyCache.IdNamesKey | ksp11/ksp11.c:850-856 | Among certificates with distinct fingerprints a search by CKA_ID finds exactly one object, and the thumbprint sent when it signs leads the server back to that certificate's key. |
| ByCertificate.FoundKeySigns | ksp11/ksp11.c:1062-1277 | When the module was initialised from a store with distinct fingerprints that stays the same, every signature made with the key handle that a search for a certificate's SHA-1 fingerprint as CKA_ID finds was made in its request by that certificate's private key; its scheme is the mechanism's own if and only if the module reads an EC key in the certificate exactly when the private key is EC. |
| ByCertificate.TableStays | ksp11/ksp11.c:148-149 | Over any calls between initialize and finalize the object table stays the same. |
| KeyCache.Client.RefreshRemoteList | internal/kspclient/client.go:121-164 | Keeps a fresh list, else replaces it with the certificates that have a private key, in order; an error changes nothing. |
| KeyCache.Client.Filter | internal/kspclient/client.go:132-160 | The loop keeps exactly the certificates with a private key. |
| KeyCache.Client.AllKeys | internal/kspclient/client.go:238-245 | Returns the list after the refresh, or the error. |
| KeyCache.Client.InstalledCount | internal/kspbridge/bridge_linux.go:98-110 | The length of the list, 0 on error. |
| KeyCache.Client.GetInstalled | internal/kspbridge/bridge_linux.go:113-132 | The indexed entry cut to the C arrays, if there is one. |
| RsaBlob.BuildBlob | internal/kspclient/client.go:247-270 | The in-place writes make header, exponent and modulus of the format. |
| RsaBlob.ReadBack | internal/kspclient/client.go:256-269 | A reader of the format gets the modulus back always, bit length and exponent modulo 2^32; the lengths are 4 and the bit length over 8, rounded up, and the prime lengths 0. |
| RsaBlob.BytesOfBits | internal/kspclient/client.go:256-266 | The modulus takes as many bytes as its bit length over 8, rounded up. |
| RsaBlob.BitLenMeaning | internal/kspclient/client.go:264-264 | The bit length is that of the next power of two above the modulus. |
| RsaBlob.BlobIsFaithful | internal/kspclient/client.go:256-269 | The blob stands for its key if and only if the exponent is below 2^32. |

## Left out

- gRPC, TLS, UDP discovery, configuration, logging and generated protocol code: plumbing without logic.
- SHA, RSA and ECDSA: parameters of the environment and of the store.
- Parsing of X.509, PEM and private keys: parameters and inputs; key material is taken to fit the object's fixed arrays.
- File names and PEM contents of the certificate directory: a scan yields one entry for each file, in name order.
- Leniency of `d2i_ECDSA_SIG` beyond trailing bytes: the decoder accepts shortest lengths and non-negative shortest integers only.
- The blocks of the object table, the search cursor and the digest context: values or mere allocation outcomes, not part of block ownership.
- Calls through unloaded bridge functions when the module is finalized without having been initialised, and a bridge without a client.
- Ksp11.Module.SignUpdate: requires at most 2^63 bytes of input, because beyond that the C code either does not end or copies past its buffer (Buffers.UpdateInOrderExactly).
- KeyCache.CachedAgreesWithServer: assumes that a call ends within its 15 s timeout and that calls follow one another, as the client's lock makes them.
- Wrap-around of the 64-bit session handle and of the 32-bit key size.
- Null data pointers with a length above zero, which the C code dereferences.
- Characters outside ASCII in thumbprints: the store's normaliser also raises such letters and trims such white space.
- Information calls, the mechanism list, login, random numbers, object sizes and unsupported entry points: constant answers.
- The Windows and macOS stores, the Windows key storage provider, the lookup of installed keys by thumbprint, GUI and installers: foreign calls or easy members.
- Locks as such: every call is one step.
