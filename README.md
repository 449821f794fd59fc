# mpOTR chat core of libotr, modelled in Dafny

This project models the core of the multi-party OTR (mpOTR) chat extension
of libotr:

- **The wire codec of chat messages** (`src/chat_message.c`): every
  message starts with a header. The header holds the protocol version, a
  type byte, the sender's instance tag and the chat instance tag. All
  types except NotOtr and Offer then carry the session identifier,
  followed by a typed payload.
  - The payload types are Offer, DAKE handshake/confirm/key, GKA
    upflow/downflow, Attest, Data, and Shutdown/Digest/End/KeyRelease.
  - Modules: `ChatTypes` (type taxonomy), `ChatPayload` (payload byte
    layouts as functions and the parsers), `PayloadCodec` (the
    buffer-filling serializers and the loop-based GKA parsers) and
    `ChatMessage` (header, session id, whole-message serialize/parse and
    the message creators).
  - `Serial` holds the integer codec and `Options` the option type.
- **The attestation round** (`src/chat_attest.c`), in module `ChatAttest`:
  - every participant sends the session id and a hash of the association
    table;
  - a participant is checked once both match ours;
  - when all are checked, the round finishes and the message state
    becomes encrypted.
  - Pure functions give each operation's effect on the attestation state.
    Classes `AttestInfo` and `ChatContext` perform the operations in place
    and are proved to agree with those functions.
- **The doubly linked list** (`src/list.c`), in module `OtrlList`: a class
  `List` with ghost `nodes`/`contents` sequences. It covers sorted insert,
  prepend, append, remove, find, get, first, last, length and clear.
- **The signature byte format** (`src/chat_sign.c`), in module `ChatSign`:
  - the length, serialization and parsing of a Signature;
  - the number that verification signs over for empty data;
  - the public key built from its serialized form.

The external parts are parameters:
- SHA-512 is a function parameter returning 64 bytes.
- Memory exhaustion is a boolean parameter in list insert, append and create.

Protocol lengths whose header is not part of this model are constants
without a value. Every proof holds for any positive value they may have.

## Model

| member | source | states |
|---|---|---|
| ChatTypes.TypeOfByte | src/chat_message.c:100-103 | every byte casts to a type whose code is that byte, and no declared type's code is taken by an unrecognized one |
| ChatTypes.TypeByte | src/chat_message.c:1190-1193 | the declared types take exactly the codes up to the last declared one; every other code is unrecognized |
| ChatTypes.TypeByteInjective | src/chat_message.c:1190-1193 | the one-byte type code is injective on proper types and casting it back yields the type |
| ChatTypes.SidlessCodes | src/chat_message.c:1195-1206 | of all 256 type bytes, exactly the codes of NotOtr and Offer announce a message without a session id |
| ChatTypes.ContainsSid | src/chat_message.c:1195-1206 | a proper type carries a session id exactly when its code is above that of Offer |
| ChatTypes.UnsignedCodes | src/chat_message.c:1208-1222 | exactly six type bytes announce an unsigned message, and every signed type carries a session id |
| ChatTypes.ShouldBeSigned | src/chat_message.c:1208-1222 | a signed type always carries a session id, and no handshake type (codes up to DAKE key) is signed |
| Serial.U16RoundTrip | src/chat_message.c:1471 | the 16-bit protocol version written at line 1254 reads back unchanged |
| Serial.U16Bijective | src/chat_message.c:1254 | every two bytes are the encoding of the 16-bit value they decode to |
| Serial.U32RoundTrip | src/chat_message.c:1475-1477 | a 32-bit field reads back unchanged (U32Exact); a wider natural comes back reduced modulo 2^32 |
| Serial.U32Bijective | src/chat_message.c:1258-1260 | every four bytes are the big-endian encoding of the 32-bit value they decode to |
| Serial.HostU32RoundTrip | src/chat_sign.c:355 | a signature length prefix copied in host order reads back modulo 2^32 |
| Serial.HostU32Bijective | src/chat_sign.c:325 | every four bytes are the host-order encoding of the length they decode to |
| Serial.Write | src/chat_sign.c:325-331 | memcpy into a buffer copies the source at the position, leaves every other byte alone and advances the position by its length |
| ChatMessage.HeaderBytes | src/chat_message.c:1471-1478 | the header fields read out of the first eleven bytes write back to exactly those bytes |
| ChatPayload.Encode | src/chat_message.c:1233-1283 | serialization of a payload fails exactly for a GKA upflow or downflow with no intermediate keys |
| ChatPayload.FixedLengths | src/chat_message.c:121-1033 | the lengths the serializers allocate are the fixed ones: 4 plus a sid contribution for Offer (line 121), 4 plus a MAC for DAKE confirm (307), a sid plus a table hash for Attest (792), one participants hash for Shutdown (960) and Digest (1033) |
| ChatPayload.ParseOffer | src/chat_message.c:146-165 | accepted exactly when the payload is 4 bytes plus one sid contribution long |
| ChatPayload.ParseDakeHandshake | src/chat_message.c:238-275 | shorter than 8 bytes is rejected; an accepted payload is exactly the two length-prefixed keys |
| ChatPayload.ParseDakeConfirm | src/chat_message.c:333-356 | accepted exactly when the payload is 4 bytes plus one MAC long |
| ChatPayload.ParseDakeKey | src/chat_message.c:418-453 | a payload shorter than recipient, MAC and key length is rejected; an accepted one is exactly those plus the key |
| ChatPayload.DecodeKeys | src/chat_message.c:581-598 | a successful read of `count` length-prefixed keys returns exactly `count` keys and an end inside the buffer |
| ChatPayload.DecodeGkaUpflow | src/chat_message.c:559-612 | shorter than recipient and key count is rejected; success yields an upflow payload |
| ChatPayload.DecodeGkaDownflow | src/chat_message.c:712-760 | shorter than the key count is rejected; success yields a downflow payload |
| ChatPayload.ParseAttest | src/chat_message.c:818-836 | accepted exactly when the payload is a sid plus an association-table hash long |
| ChatPayload.ParseData | src/chat_message.c:895-925 | shorter than counter and length is rejected; an accepted payload is exactly counter, length and ciphertext |
| ChatPayload.ParseShutdownShutdown | src/chat_message.c:984-1003 | accepted exactly when the payload is one participants hash long, and it is that hash |
| ChatPayload.ParseShutdownDigest | src/chat_message.c:1057-1076 | accepted exactly when the payload is one participants hash long, and it is that hash |
| ChatPayload.ParseShutdownKeyRelease | src/chat_message.c:1132-1160 | shorter than 4 bytes is rejected; an accepted payload is exactly the length-prefixed key |
| ChatPayload.Decode | src/chat_message.c:1297-1393 | a decoded payload has the type that was asked for and the shape of that type; NotOtr and unknown type bytes have no payload |
| ChatPayload.OfferExact | src/chat_message.c:146-165 | an accepted Offer payload re-serializes to the same bytes |
| ChatPayload.DakeHandshakeExact | src/chat_message.c:238-275 | an accepted DAKE handshake payload re-serializes to the same bytes |
| ChatPayload.DakeConfirmExact | src/chat_message.c:333-356 | an accepted DAKE confirm payload re-serializes to the same bytes |
| ChatPayload.DakeKeyExact | src/chat_message.c:418-453 | an accepted DAKE key payload re-serializes to the same bytes |
| ChatPayload.DecodeKeysLayout | src/chat_message.c:581-598 | the bytes consumed by a successful key-list read are exactly the serialization of the keys read |
| ChatPayload.GkaUpflowExact | src/chat_message.c:559-612 | an accepted upflow payload is exactly the serialization of its recipient and keys |
| ChatPayload.GkaDownflowPrefix | src/chat_message.c:712-760 | the serialization of an accepted downflow payload is a prefix of the input |
| ChatPayload.AttestExact | src/chat_message.c:818-836 | an accepted Attest payload re-serializes to the same bytes |
| ChatPayload.DataExact | src/chat_message.c:895-925 | an accepted Data payload re-serializes to the same bytes |
| ChatPayload.KeyReleaseExact | src/chat_message.c:1132-1160 | an accepted key-release payload re-serializes to the same bytes |
| ChatPayload.DecodeThenEncode | src/chat_message.c:1297-1393 | every decoded payload serializes again, to the input or, for a GKA downflow or Shutdown End, to a prefix of it; the one exception is a GKA upflow or downflow with no keys, which parses but cannot be serialized |
| ChatPayload.KeysRoundTrip | src/chat_message.c:526-598 | reading back a serialized key list of 32-bit-sized keys yields the keys and the position right after them |
| ChatPayload.OfferRoundTrip | src/chat_message.c:114-165 | parsing a serialized Offer yields the Offer |
| ChatPayload.DakeHandshakeRoundTrip | src/chat_message.c:187-275 | parsing a serialized DAKE handshake yields it back |
| ChatPayload.DakeConfirmRoundTrip | src/chat_message.c:300-356 | parsing a serialized DAKE confirm yields it back |
| ChatPayload.DakeKeyRoundTrip | src/chat_message.c:379-453 | parsing a serialized DAKE key yields it back |
| ChatPayload.GkaUpflowRoundTrip | src/chat_message.c:478-612 | parsing a serialized GKA upflow yields it back |
| ChatPayload.GkaDownflowRoundTrip | src/chat_message.c:636-760 | parsing a serialized GKA downflow, with any trailing bytes, yields it back |
| ChatPayload.AttestRoundTrip | src/chat_message.c:785-836 | parsing a serialized Attest payload yields it back |
| ChatPayload.DataRoundTrip | src/chat_message.c:858-925 | parsing a serialized Data payload yields it back |
| ChatPayload.KeyReleaseRoundTrip | src/chat_message.c:1098-1160 | parsing a serialized key-release payload yields it back |
| ChatPayload.EncodeThenDecode | src/chat_message.c:1233-1393 | every encodable payload serializes, and decoding under its own type yields it back |
| ChatPayload.DownflowIgnoresTrailing | src/chat_message.c:712-760 | bytes appended after an accepted downflow payload do not change what is parsed |
| ChatPayload.DecodeKeysExtends | src/chat_message.c:581-598 | a key-list read that succeeds is unchanged by bytes appended to the buffer |
| ChatPayload.EmptyKeyListAsymmetry | src/chat_message.c:478-760 | GKA payloads with no keys are refused by the serializers but accepted by the parsers |
| ChatPayload.KeysOverrun | src/chat_message.c:581-598 | a key count larger than the keys present makes the key-list read fail |
| ChatPayload.UpflowOverrunRejected | src/chat_message.c:559-612 | an upflow whose announced key count exceeds the keys present is rejected |
| ChatPayload.ExactRejectsTrailing | src/chat_message.c:1297-1393 | for every type other than GKA downflow and Shutdown End, bytes appended to an accepted payload make it rejected |
| ChatPayload.DownflowTruncationRejected | src/chat_message.c:712-760 | a downflow payload with its last byte cut off is rejected |
| ChatPayload.TruncationRejected | src/chat_message.c:1297-1393 | every non-empty serialized payload with its last byte cut off is rejected under its type |
| PayloadCodec.SerializeOffer | src/chat_message.c:114-135 | the buffer filled is the Offer layout: position, then contribution |
| PayloadCodec.SerializeDakeHandshake | src/chat_message.c:187-226 | the buffer filled is the two length-prefixed keys |
| PayloadCodec.SerializeDakeConfirm | src/chat_message.c:300-321 | the buffer filled is recipient then MAC |
| PayloadCodec.SerializeDakeKey | src/chat_message.c:379-406 | the buffer filled is recipient, MAC, then the length-prefixed key |
| PayloadCodec.KeysLength | src/chat_message.c:505-514 | the summing loop computes the length of the serialized key list |
| PayloadCodec.WriteKeys | src/chat_message.c:526-531 | the writing loop leaves the serialized key list in the buffer at the start position |
| PayloadCodec.SerializeGkaUpflow | src/chat_message.c:478-547 | the result is the upflow serialization, and none when there are no keys |
| PayloadCodec.SerializeGkaDownflow | src/chat_message.c:636-700 | the result is the downflow serialization, and none when there are no keys |
| PayloadCodec.SerializeAttest | src/chat_message.c:785-806 | the buffer filled is sid then association-table hash |
| PayloadCodec.SerializeData | src/chat_message.c:858-883 | the buffer filled is counter, ciphertext length, ciphertext |
| PayloadCodec.SerializeHash | src/chat_message.c:953-972 | the shutdown and digest payloads are the hash itself |
| PayloadCodec.SerializeKeyRelease | src/chat_message.c:1098-1120 | the buffer filled is the length-prefixed key |
| PayloadCodec.SerializePayload | src/chat_message.c:1233-1283 | the dispatch gives the payload's serialization, none exactly when the payload cannot be serialized |
| PayloadCodec.ReadKeys | src/chat_message.c:581-598 | the reading loop agrees with the key-list reading function, including its failures |
| PayloadCodec.ParseGkaUpflow | src/chat_message.c:559-612 | the loop-based upflow parser agrees with the upflow decoding function |
| PayloadCodec.ParseGkaDownflow | src/chat_message.c:712-760 | the loop-based downflow parser agrees with the downflow decoding function |
| PayloadCodec.ParsePayload | src/chat_message.c:1297-1393 | the payload dispatch agrees with the decoding function for every type |
| ChatMessage.Serialize | src/chat_message.c:1233-1283 | a message serializes exactly when its payload does; the result is header, sid when present, payload, with the type byte at offset 2 |
| ChatMessage.ParseType | src/chat_message.c:1404-1412 | a type is read exactly when there are at least 3 bytes, and it is the cast of the byte at offset 2 |
| ChatMessage.ParseSid | src/chat_message.c:1423-1440 | a sid is read exactly when the message holds the header and a whole sid, and it is the bytes after the header |
| ChatMessage.Parse | src/chat_message.c:1453-1493 | a message shorter than the header is rejected; a parsed message has a proper type that its payload matches and the given sender name |
| ChatMessage.Create | src/chat_message.c:1505-1531 | a created message carries our instance tag, the chat tag, our protocol version, our account name, the payload's type and, when it needs one, our sid |
| ChatMessage.SerializeMessage | src/chat_message.c:1233-1283 | the buffer filled agrees with the serialization function |
| ChatMessage.SerializeThenParse | src/chat_message.c:1233-1493 | parsing a serialized well-formed message yields the message |
| ChatMessage.ParseThenSerialize | src/chat_message.c:1453-1493 | a parsed message serializes again, to the input or, for a GKA downflow or Shutdown End, to a prefix of it; only a GKA upflow or downflow with no keys fails to serialize |
| ChatMessage.ParseAgrees | src/chat_message.c:1404-1493 | the type and sid of a parsed message are the ones the type and sid readers extract |
| ChatMessage.NoCodecRejected | src/chat_message.c:1297-1393 | a message with the NotOtr type byte or an undeclared one is rejected |
| ChatMessage.TruncatedMessageRejected | src/chat_message.c:1453-1493 | a serialized message with its last byte cut off is rejected |
| ChatMessage.CreatedRoundTrip | src/chat_message.c:1544-1970 | every message built by a creator from an encodable payload (a GKA payload with at least one key) round-trips through serialize and parse |
| ChatMessage.ProperTypes | src/chat_message.c:1297-1393 | every payload's type is one a byte can denote |
| OtrlList.ScanFrom | src/list.c:80 | the insertion walk stops at the first later payload not sorting after the new one |
| OtrlList.InsertIndex | src/list.c:65-87 | the insert position is 0 exactly for an empty list or a payload before the head; otherwise the payloads passed sort before it |
| OtrlList.Inserted | src/list.c:58-95 | the list after an insert is one longer, holds the same payloads plus the new one, and has the new one at the insert position |
| OtrlList.MatchIndex | src/list.c:212-235 | the search index is the first payload comparing equal, or the length when none does |
| OtrlList.Node.constructor | src/list.c:42-56 | a new node holds the payload and no links |
| OtrlList.List.constructor | src/list.c:25-40 | a new list is valid, empty and uses the given comparator |
| OtrlList.List.Length | src/list.c:272-275 | the size field is the number of payloads |
| OtrlList.List.Insert | src/list.c:58-95 | (corrected links) the new node sits at the insert position, every link stays consistent and the contents are the sorted insertion; out of memory changes nothing |
| OtrlList.List.ScanForInsert | src/list.c:80 | the walk ends at the node just before the insert position |
| OtrlList.List.LinkFirst | src/list.c:65-78 | a node linked first becomes the head and the list stays valid |
| OtrlList.List.LinkAfter | src/list.c:80-87 | a node linked after the walk's node lands at the insert position and the list stays valid |
| OtrlList.List.InsertAsWritten | src/list.c:58-95 | as written: a node inserted strictly inside the list leaves its successor's back link pointing at the predecessor |
| OtrlList.List.Prepend | src/list.c:97-116 | the new node becomes the head and the payload the first element |
| OtrlList.List.Append | src/list.c:118-142 | the new node becomes the tail and the payload the last element; out of memory changes nothing |
| OtrlList.List.Unlink | src/list.c:144-159 | the node leaves the list, all other nodes keep their order and the list stays valid |
| OtrlList.List.Find | src/list.c:212-235 | the node returned is the first whose payload compares equal to the target, or null |
| OtrlList.List.Clear | src/list.c:196-201 | the list is left empty and valid |
| OtrlList.Create | src/list.c:25-40 | no list is made exactly when memory runs out or no comparator is given; otherwise a fresh, valid, empty list |
| OtrlList.Remove | src/list.c:144-159 | a null list or node changes nothing; otherwise exactly that node and its payload are removed |
| OtrlList.Get | src/list.c:237-252 | the node at index i, or null when the list is null or too short |
| OtrlList.GetFirst | src/list.c:263-270 | the head node, or null for a null or empty list |
| OtrlList.GetLast | src/list.c:254-261 | the tail node, or null for a null or empty list |
| OtrlList.InsertKeepsSorted | src/list.c:58-95 | inserting into a sorted list under an antisymmetric comparator keeps it sorted |
| OtrlList.InsertKeepsOrder | src/list.c:58-95 | removing the new payload from the inserted list gives back the old list |
| OtrlList.EqualPlacement | src/list.c:73-80 | a payload equal to the head goes after it, but one equal to a later payload goes before that one |
| OtrlList.MiddleInsertReached | src/list.c:80-86 | an input exists that reaches the middle-insert branch |
| OtrlList.FindIsFirstMatch | src/list.c:212-235 | the search result is characterised as the first equal payload |
| ChatAttest.CountUpdate | src/chat_attest.c:109-125 | flipping one checked flag moves the checked count by exactly that flag's change |
| ChatAttest.CountAll | src/chat_attest.c:100-103 | the count equals the number of participants exactly when all are checked |
| ChatAttest.Ready | src/chat_attest.c:100-103 | under the count invariant, the round is ready exactly when every participant is checked |
| ChatAttest.TableKeys | src/chat_attest.c:31-67 | the association table is formed exactly when every participant has a signing key |
| ChatAttest.TableHash | src/chat_attest.c:31-67 | the table hash fails exactly when a participant lacks a key, and otherwise has the hash length |
| ChatAttest.TableHashIgnoresNames | src/chat_attest.c:43-52 | the table hash depends only on the participants' keys in order |
| ChatAttest.TableKeysAppend | src/chat_attest.c:43-52 | adding a participant appends its serialized key to the table |
| ChatAttest.Position | src/chat_attest.c:215-216 | the position is the first participant with the name, and none when nobody has it |
| ChatAttest.FreshInfo | src/chat_attest.c:143-173 | a fresh attestation state has one unchecked flag per participant, count zero and is awaiting |
| ChatAttest.Mark | src/chat_attest.c:122-125 | marking sets one flag and raises the count by one |
| ChatAttest.Unmark | src/chat_attest.c:111-114 | clearing one flag keeps the count consistent |
| ChatAttest.AfterVerify | src/chat_attest.c:105-133 | an out-of-range position fails; otherwise exactly that participant's flag becomes whether it attested correctly |
| ChatAttest.OurMessage | src/chat_attest.c:175-200 | our message exists exactly when the table hash does; it is a well-formed Attest with our sid and our hash |
| ChatAttest.SelfMark | src/chat_attest.c:218-223 | an already marked position changes nothing and sends nothing; otherwise the call fails, changing nothing, exactly when our Attest message cannot be built, and on success marks us and sends exactly our Attest message |
| ChatAttest.AfterInit | src/chat_attest.c:202-235 | init always leaves attestation state fitting the participants and keeps the message state; on success the round is awaiting and any message sent is our Attest message |
| ChatAttest.AfterHandle | src/chat_attest.c:237-294 | non-Attest messages and finished rounds fail without touching the message state; success finishes the round and encrypts exactly when all are checked, and any message sent is our Attest message |
| ChatAttest.HandleEmits | src/chat_attest.c:259-289 | a successful handle sends our Attest message exactly when we were unchecked before the call and the sender is not us |
| ChatAttest.HandleRefusesOthers | src/chat_attest.c:297-307 | a message the attestation code does not claim is refused by its handler and the message state is unchanged |
| ChatAttest.IsMyMessage | src/chat_attest.c:297-307 | the attestation code claims exactly the messages with the Attest type byte, which carry the session id and are signed |
| ChatAttest.VerifyMarksIff | src/chat_attest.c:105-133 | a participant is marked exactly when in range with our sid and our hash; the call fails exactly when out of range or when our hash cannot be computed after a sid match |
| ChatAttest.VerifyHashOnlyAfterSid | src/chat_attest.c:116-120 | the table hash is consulted only when the sid matches |
| ChatAttest.FailedReattestation | src/chat_attest.c:109-125 | a checked participant failing again is unchecked and the count drops by one |
| ChatAttest.InitTwice | src/chat_attest.c:202-235 | a second init after a successful one changes nothing and sends nothing |
| ChatAttest.InitMarksUs | src/chat_attest.c:202-235 | init marks our own position and keeps every other flag of an existing round |
| ChatAttest.HandleSuccess | src/chat_attest.c:237-294 | a handled message carried our sid and our table hash, and both sender and we are now checked |
| ChatAttest.HandleFinishesWhenAllChecked | src/chat_attest.c:281-284 | after a successful handle the round is finished exactly when every participant is checked |
| ChatAttest.AttestInfo.constructor | src/chat_attest.c:143-173 | a new attestation record is the fresh state for its size |
| ChatAttest.AttestInfo.IsReady | src/chat_attest.c:100-103 | ready exactly when every flag in the array is set |
| ChatAttest.ChatContext.ValidFits | src/chat_attest.c:143-173 | a valid context's state fits its participant list |
| ChatAttest.ChatContext.InfoInit | src/chat_attest.c:143-173 | a fresh attestation record for all participants replaces the old one; the message state is kept |
| ChatAttest.ChatContext.VerifyAssocTableHash | src/chat_attest.c:79-98 | fails exactly when the table hash cannot be computed, else answers whether the given hash equals ours |
| ChatAttest.ChatContext.Verify | src/chat_attest.c:105-133 | the in-place verify leaves the record and the outcome given by the verify function |
| ChatAttest.ChatContext.CreateOurMessage | src/chat_attest.c:175-200 | the message built agrees with our-message function |
| ChatAttest.ChatContext.MarkOurselves | src/chat_attest.c:218-223 | the in-place self-mark agrees with the self-mark function |
| ChatAttest.ChatContext.Init | src/chat_attest.c:202-235 | the in-place init leaves the state and outcome given by the init function |
| ChatAttest.ChatContext.HandleMessage | src/chat_attest.c:237-294 | the in-place handler leaves the state and outcome given by the handle function |
| ChatAttest.AssocTableHash | src/chat_attest.c:31-67 | the loop over the participants computes the table hash function |
| ChatSign.SignatureBytes | src/chat_sign.c:311-334 | the serialized signature is 8 bytes of lengths plus r plus s |
| ChatSign.GetLength | src/chat_sign.c:303-309 | as written: 0 for an incomplete signature, the serialized length whenever it fits in 32 bits |
| ChatSign.SignatureLength | src/chat_sign.c:303-309 | corrected: 0 for an incomplete signature, otherwise exactly the serialized length |
| ChatSign.LengthsAgreeBelowWrap | src/chat_sign.c:303-309 | the as-written and corrected lengths agree below 2^32 |
| ChatSign.LengthWraps | src/chat_sign.c:303-334 | a signature with r of 2^32-4 bytes gets a 4-byte length from the as-written computation |
| ChatSign.SerializeSignature | src/chat_sign.c:311-334 | (corrected) an incomplete signature is not serialized; a complete one fills the buffer with its lengths, r and s |
| ChatSign.ParsedSignature | src/chat_sign.c:336-388 | parsing yields both parts, with lengths that fit, whose serialization is a prefix of the buffer |
| ChatSign.ParseSignature | src/chat_sign.c:336-388 | a null buffer fails; otherwise the parsed signature agrees with the parse function |
| ChatSign.SignatureRoundTrip | src/chat_sign.c:311-388 | parsing a serialized signature yields its r and s |
| ChatSign.ParseIgnoresTrailing | src/chat_sign.c:336-388 | bytes after a signature do not change what is parsed |
| ChatSign.SignValue | src/chat_sign.c:108-112 | signing signs the SHA-512 of the data read as an unsigned 512-bit number |
| ChatSign.VerifyValue | src/chat_sign.c:228-238 | verification uses 0 for empty data and the hash value otherwise |
| ChatSign.EmptyDataValuesDiffer | src/chat_sign.c:89-257 | for empty data, signing and verification use the same number only if SHA-512 of the empty string were all zero |
| ChatSign.ParsePublicKey | src/chat_sign.c:269-282 | a parsed public key carries the serialized point and no private part |

## Left out

- Memory exhaustion is modelled only where the source checks for it in list insert, append and create. Every malloc failure in the message, attestation and signature code is left out, and serialization and parsing always get their buffer.
- OtrlList.List.Prepend: the source does not check the node allocation, so the model assumes it succeeds.
- The integer codec `chat_serial_*` is in a file that is not part of this model. It is modelled as a big-endian codec of the low 16 or 32 bits.
- GKA key counts and key sizes are read into a signed `int` in the source. The model reads them as unsigned 32-bit values and does not reproduce signed overflow.
- The numeric values of the protocol lengths and of the message-type codes live in a header that is not part of this model.
  - The lengths are constants without a value.
  - The type codes are assumed to be numbered in declaration order, NotOtr first.
- The signature's r and s lengths are written in host byte order, modelled as little-endian.
- Ed25519 signing and verification, MPI conversion and S-expression building are outside the model. So are key generation and the public-key extraction in `chat_sign_serialize_pubkey`. The model keeps only the number that is signed and verified.
- SHA-512 is a function parameter. Its failure paths are left out: in `chat_sign_get_data_hash`, and the hash-context open in `chat_attest_assoctable_hash`.
- ChatAttest.TableHash: fails only when a participant has no signing key. A failure of `chat_sign_serialize_pubkey` is not modelled, because the key is kept in serialized form.
- Intermediate GKA keys and DAKE key material are byte strings. The MPI conversions `chat_serial_mpi_to_string` and `chat_serial_string_to_mpi` are taken as the identity, and their failures are left out.
- The release functions (free, destroy) are left out because they only deallocate. `otrl_list_dump`, `foreach`, print, `is_otr`, `is_fragment` and the comparators are left out for the same reason: they have no effect on the modelled state.
- List functions called on a NULL list are modelled for remove, get, first and last. The other operations require a list.
- The list's size counter is unbounded, so its wrap-around is not modelled.
- The participant list is a sequence rather than an `OtrlList`. Participant lookup by name is modelled as the first participant with that name.
- The participant list is assumed to have the size recorded in the attestation record, as the source's callers guarantee.
- The message-state reset that the source leaves as a TODO in the attestation handler is not modelled.
- ChatSign.ParseSignature: requires the buffer to hold the two length prefixes and both parts. The source is given no buffer length and reads past a short buffer, which a model cannot express.
- Where the written behaviour of the source and its documentation disagree, the model follows the code:
  - Sorted insert places a payload equal to the head after the head, but a payload equal to a later node before that node.
  - The GKA downflow parser accepts trailing bytes.

## Findings

| source | as written | input that shows it | evidently intended | confidence | as-written member | corrected member |
|---|---|---|---|---|---|---|
| src/list.c:81-86 | inserting between two nodes sets the new node's links and the predecessor's `next`, but never the successor's `prev` | a list holding 1 and 3 under integer comparison, then inserting 2: the node for 3 keeps `prev` pointing at 1 | the successor's `prev` points at the new node | not executed | OtrlList.List.InsertAsWritten | OtrlList.List.Insert |
| src/chat_sign.c:303-334 | the signature length `8 + rlen + slen` is returned as a 32-bit `unsigned int`, and serialize allocates that many bytes before copying r and s | r of 2^32-4 bytes and an empty s: the length is 4, yet 2^32+4 bytes are copied | the length is the full serialized size, with no wrap-around | not executed | ChatSign.LengthWraps | ChatSign.SerializeSignature |
