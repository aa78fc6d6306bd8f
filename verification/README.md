# Wallet message codecs of tongo, in Dafny

This project models the message layer of tongo's `wallet` package
(`wallet/messages.go`). That layer turns the outgoing payments of a TON wallet
into the body of an external message, and lists the payments again when given
such a message. It covers four wallet generations:

- **Wallet v3 and v4**: a fixed-slot payload of up to four payments. Each
  payment is an 8-bit send mode inline plus one reference to the message cell.
- **Highload v2**: a dictionary of up to 254 payments, keyed by position.
- **Wallet v5**: a sum type tagged `sint`/`sign`, whose payments are a chain
  of action cells.

It also models both signature schemes. Wallet v3, v4 and highload v2 put a
512-bit signature first and sign the payload after it. Wallet v5 puts the
signature last and signs the body with it stripped. The dispatch on the
wallet version sits on top of all of this.

A cell is `Cell(bits, refs)`, read through a cursor (`Reader`) that holds the
next unread bit and reference. Each decoder is a pure function returning
`Result`. Each encoder is a pure function, with an encoder-side `Result`
wherever the source refuses an input. The layout is:

| file | module | models |
|---|---|---|
| bits.dfy | Bits | fixed-width integers as big-endian bit strings; bytes from bits |
| cells.dfy | Cells | cells, the read cursor, the cell reads and writes the codecs use, errors, `RawMessage` |
| fixed_slot.dfy | FixedSlot | `PayloadV1toV4` encode and decode |
| highload.dfy | Highload | `PayloadHighload` encode and decode over an abstract dictionary |
| action_chain.dfy | ActionChain | `SendMessageAction`, `SendMessageList` decode, a canonical chain builder |
| signature.dfy | Signature | `extractSignedMsgBody`, `SignedMsgBody.Verify`, `MessageV5VerifySignature` |
| messages.dfy | Messages | the four message bodies, their decoders and builders, `MessageV5.RawMessages` |
| wallet.dfy | Wallet | `Version`, `ExtractRawMessages`, `VerifySignature` |

Some things are outside the file and become parameters:

- Cell hashing and Ed25519 verification (section 5.1.7 of RFC 8032) are the
  function-valued fields of `Signature.Crypto`.
- Parsing the outer ledger message is an `Envelope`, a function from the
  message cell to its body cell, or `None` when it does not parse.
- Building and loading a HashmapE dictionary is a `Highload.DictCodec`.
  - The dictionary library's behaviour is stated once, as `Highload.Faithful`.
  - Loading a stored, non-empty, ascending list of 16-bit keys gives the list back.
  - Every loaded dictionary lists its items in ascending key order.
  - Only the lemmas that need this assume it.

The model follows the code where a stricter reading of the layout is
possible:

- The fixed-slot decoder stops when references run out and does not reject
  leftover mode bits (wallet/messages.go:243-247).
- The dictionary payload reads a HashmapE: a 0 marker bit is an empty
  dictionary, not an error.
- An action-chain node is checked only for its count of unread bits. A node
  may carry more references than the two it uses, and the terminal node may
  carry references.

## Model

| member | source | states |
|---|---|---|
| FixedSlot.AppendSlots | wallet/messages.go:229-238 | each entry adds exactly 8 bits and 1 reference, the original bits and references stay a prefix, and the entries sit as slots in list order from the old end |
| FixedSlot.SlotsSnoc | wallet/messages.go:229-238 | writing one more mode and reference after a run of slots extends that run by exactly that entry |
| FixedSlot.EncodeFixed | wallet/messages.go:225-240 | fails with TooManyMessages(4) exactly when there are more than 4 entries; otherwise the cell holds the entries as slots |
| FixedSlot.DecodeFixed | wallet/messages.go:242-259 | succeeds exactly when every unread reference has 8 mode bits after it; only NotEnoughBits can fail it; one entry per unread reference, each the next reference and the next byte; leftover bits are left unread |
| FixedSlot.FixedDecodeComplete | wallet/messages.go:242-259 | any list of slots that covers every unread reference is exactly what decoding returns |
| FixedSlot.FixedRoundTrip | wallet/messages.go:225-259 | decoding, from where encoding started, a list of at most 4 entries gives back the same entries in the same order, with every reference consumed |
| Highload.ValueCell | wallet/messages.go:268-274 | a value cell has exactly 8 bits, whose value is the mode, and exactly one reference, the message |
| Highload.IndexedItems | wallet/messages.go:265-277 | entry i is keyed by i and valued by its own value cell; the keys fit 16 bits and strictly ascend |
| Highload.EncodeHighload | wallet/messages.go:261-290 | fails with TooManyMessages(254) exactly when there are more than 254 entries; otherwise adds exactly one true bit and one reference, the dictionary of the indexed items |
| Highload.DecodeHashmapE | wallet/messages.go:293-296 | a 0 marker is the empty dictionary; a 1 marker needs a root reference whose loaded items are the result; with a 1 marker and a reference it succeeds exactly when the dictionary loads, and fails only with MalformedDictionary; under the dictionary assumption those items have ascending keys |
| Highload.DecodeValues | wallet/messages.go:297-313 | succeeds exactly when every value cell has 8 bits and a reference, so one bad value fails the whole list; otherwise entry i is the mode and first reference of item i |
| Highload.DecodeHighload | wallet/messages.go:292-316 | succeeds exactly when the dictionary reads and all its values are well formed, and then lists their modes and messages in item order |
| Highload.DecodeValuesIgnoresKeys | wallet/messages.go:298-313 | two item lists with the same values decode alike, whatever their keys: gaps, duplicates and out-of-range keys are neither rejected nor compacted |
| Highload.IndexedValuesDecode | wallet/messages.go:297-313 | the value cells built for a payload decode back to that payload |
| Highload.HighloadRoundTrip | wallet/messages.go:261-316 | with a faithful dictionary, decoding what encoding appended gives back the same non-empty payload in order |
| ActionChain.DecodeAction | wallet/messages.go:30-34 | an action reads exactly when there are 40 bits and a reference and the first 32 bits are 0x0ec3c86d; it is then the next 8 bits as mode and the next reference as message |
| ActionChain.DecodeChain | wallet/messages.go:318-340 | 0 unread bits ends the chain with no actions; any count other than 0 or 40 is UnexpectedBitsAvailable with that count; a 40-bit node contributes at least one action |
| ActionChain.DecodeChainStep | wallet/messages.go:325-335 | a 40-bit node decodes to its own action followed by whatever its first reference decodes to |
| ActionChain.DecodeChainSound | wallet/messages.go:318-340 | whatever the decoder accepts is a chain of exactly the returned actions, node by node, in order |
| ActionChain.DecodeChainComplete | wallet/messages.go:318-340 | every chain of actions decodes to exactly those actions, in chain order |
| ActionChain.NodeBits | wallet/messages.go:30-33 | the 40 bits of a node read back as the tag in the first 32 and the mode in the last 8 |
| ActionChain.ChainOfDecodes | wallet/messages.go:318-340 | the canonical chain for any list of actions decodes back to that list |
| Signature.ExtractSignedMsgBody | wallet/messages.go:98-109 | an unparsable envelope is MalformedEnvelope; otherwise it succeeds exactly when the body has 512 bits, fails only with NotEnoughBits, and splits the body into signature and payload with nothing lost |
| Signature.ExtractSignedMsgBodyOf | wallet/messages.go:98-109 | a body laid out as a signature then a payload comes apart into exactly that signature and that payload |
| Signature.Verify | wallet/messages.go:86-96 | passes exactly when the payload hashes and the signature verifies against that hash; BadSignature exactly when it hashes and does not verify; any other outcome is HashFailed |
| Signature.CopyRefs | wallet/messages.go:359-367 | copying n references succeeds exactly when n are unread, fails only with NotEnoughRefs, and appends them in order |
| Signature.StripSignature | wallet/messages.go:342-367 | fewer than 512 unread bits is NotEnoughBits; otherwise the copy holds every unread bit but the last 512 and every reference in order, and the signature is the last 64 bytes |
| Signature.MessageV5VerifySignature | wallet/messages.go:342-376 | passes exactly when the stripped cell hashes and the trailing signature verifies over it; BadSignature exactly when it hashes and does not verify; stripping errors pass through |
| Signature.V5SignatureRoundTrip | wallet/messages.go:342-376 | appending a signature to a cell and checking it recovers exactly that cell and signature, and passes exactly when the signature is valid for that cell |
| Messages.Int8OfByte | wallet/messages.go:21-28 | the op byte read back as a signed 8-bit value: negative exactly when the byte is at least 128, and equal to the byte modulo 256 |
| Messages.ByteOfInt8 | wallet/messages.go:21-28 | the byte written for a signed op reads back as that op |
| Messages.DecodeV3 | wallet/messages.go:149-156 | succeeds exactly when there are 96 header bits and 8 mode bits for each reference; the header fields are the three 32-bit words, and the payments are the slots after them |
| Messages.EncodeV3 | wallet/messages.go:225-227 | a wallet v3 body is built exactly when it has at most 4 payments |
| Messages.V3HeaderReads | wallet/messages.go:14-19 | the three header words read back from a cell that starts with them |
| Messages.V3RoundTrip | wallet/messages.go:141-156 | decoding an encoded wallet v3 body gives back the whole message |
| Messages.DecodeV4 | wallet/messages.go:132-139 | succeeds exactly when there are 104 header bits and 8 mode bits for each reference; the op is the signed reading of the fourth header byte; the payments are the slots after it |
| Messages.EncodeV4 | wallet/messages.go:225-227 | a wallet v4 body is built exactly when it has at most 4 payments |
| Messages.V4HeaderReads | wallet/messages.go:21-28 | the three header words and the op byte read back from a cell that starts with them |
| Messages.V4RoundTrip | wallet/messages.go:124-139 | decoding an encoded wallet v4 body gives back the whole message, negative ops included |
| Messages.DecodeHighloadV2 | wallet/messages.go:166-173 | on success the header is a 32-bit and a 64-bit word, and the payments are the dictionary payload decoded after them |
| Messages.EncodeHighloadV2 | wallet/messages.go:261-264 | a highload v2 body is built exactly when it has at most 254 payments |
| Messages.HighloadV2HeaderReads | wallet/messages.go:63-67 | the 32-bit and 64-bit header words read back from a cell that starts with them |
| Messages.HighloadV2RoundTrip | wallet/messages.go:158-173 | with a faithful dictionary, decoding an encoded non-empty highload v2 body gives back the whole message |
| Messages.DecodeV5Body | wallet/messages.go:44-51 | succeeds exactly when 657 bits and a reference remain and the chain under that reference decodes; on success the fields are the 80, 32, 32, 1 and 512 bits in declaration order, and the actions are what the chain under the next reference decodes to |
| Messages.DecodeV5 | wallet/messages.go:40-61 | a 32-bit tag that is neither variant's is BadSumTag with that tag; with either variant's tag it succeeds exactly when the body after the tag decodes; each variant's tag fills in that variant from the body after it |
| Messages.V5Layout | wallet/messages.go:44-51 | each field of an encoded v5 body sits at its declaration-order offset |
| Messages.V5FieldsRead | wallet/messages.go:44-51 | each field of an encoded v5 body reads back at its offset, and the cursor moves past it |
| Messages.V5BodyRoundTrip | wallet/messages.go:40-61 | the tag and the body of an encoded v5 message read back, actions included |
| Messages.V5RoundTrip | wallet/messages.go:111-122 | an encoded v5 message of either variant decodes to that variant with that body |
| Messages.V5SignatureIsTrailing | wallet/messages.go:342-376 | the signature the v5 decoder reads is the one the v5 check verifies, and it is checked against the message without it, references kept |
| Messages.ActionsToRaw | wallet/messages.go:381-388 | one payment per action, in order, with each action's message and mode |
| Messages.RawMessages | wallet/messages.go:378-401 | the filled-in variant's actions become payments, one per action, in order; any other sum-type name gives none |
| Messages.SignedPayload | wallet/messages.go:103-107 | the payload is the body's bits after the 512-bit signature, with every reference |
| Messages.DecodeMessageV3 | wallet/messages.go:141-147 | an unparsable envelope is MalformedEnvelope; a body under 512 bits is NotEnoughBits; otherwise the result is the payload decoded as wallet v3 |
| Messages.DecodeMessageV4 | wallet/messages.go:124-130 | an unparsable envelope is MalformedEnvelope; a body under 512 bits is NotEnoughBits; otherwise the result is the payload decoded as wallet v4 |
| Messages.DecodeHighloadV2Message | wallet/messages.go:158-164 | an unparsable envelope is MalformedEnvelope; a body under 512 bits is NotEnoughBits; otherwise the result is the payload decoded as highload v2 |
| Messages.DecodeMessageV5 | wallet/messages.go:111-122 | an unparsable envelope is MalformedEnvelope; otherwise the whole body, signature included, is decoded as wallet v5 |
| Wallet.PaymentsV3 | wallet/messages.go:191-196 | wallet v3 payments are listed exactly when the message decodes as wallet v3; when listed they are the fixed slots after the 96-bit header of the signed payload, one per reference |
| Wallet.PaymentsV4 | wallet/messages.go:184-190 | wallet v4 payments are listed exactly when the message decodes as wallet v4; when listed they are the fixed slots after the 104-bit header, whatever the op |
| Wallet.PaymentsHighloadV2 | wallet/messages.go:197-202 | highload v2 payments are listed exactly when the message decodes as highload v2; when listed they are the modes and messages of the well-formed dictionary values in item order |
| Wallet.PaymentsV5 | wallet/messages.go:178-183 | wallet v5 payments are listed exactly when the message decodes as wallet v5; when listed they are the actions of whichever variant the body's tag selected |
| Wallet.ExtractRawMessages | wallet/messages.go:176-206 | any version outside V5R1, V4R1, V4R2, V3R1, V3R2 and HighLoadV2R2 is UnsupportedVersion without looking at the message; each of those is routed to its own decoder, whose envelope and length errors come through unchanged |
| Wallet.VerifySignature | wallet/messages.go:212-223 | only V3R1, V3R2, V4R1, V4R2 and HighLoadV2R2 are checked, so V5R1 is UnsupportedVersion; passes exactly when the payload after the leading signature hashes and the signature verifies; BadSignature exactly when it hashes and does not verify |
| Wallet.SignedBody | wallet/messages.go:72-75 | a signed body of a signature and a payload has that signature first and that payload after it |
| Wallet.ExtractV3 | wallet/messages.go:191-196 | the payments of an encoded wallet v3 message come back out, whatever the signature |
| Wallet.ExtractV4 | wallet/messages.go:184-190 | the payments of an encoded wallet v4 message come back out, whatever its op |
| Wallet.ExtractHighloadV2 | wallet/messages.go:197-202 | with a faithful dictionary, the non-empty payments of an encoded highload v2 message come back out in index order |
| Wallet.PaymentsV5Encoded | wallet/messages.go:178-183 | the payments of an encoded v5 message of either variant are its actions |
| Wallet.ExtractV5 | wallet/messages.go:178-183 | the payments of an encoded v5 message are its actions, one per action, in chain order |
| Wallet.VerifySignedBody | wallet/messages.go:212-223 | a signed body passes exactly when its signature is valid for its payload, and fails with BadSignature exactly when the payload hashes and the signature is not valid |

## Left out

- Cell hashing and Ed25519 verification are parameters, not models. They are cryptography outside the file.
- The outer message envelope (`tlb.Message`) is a parameter. It belongs to the serialisation library.
- The reflective `tlb.Marshal`/`tlb.Unmarshal` engine is written out by hand. Each message record is laid out field by field in declaration order, as that engine does for a plain record. The engine itself is not part of this model.
- The HashmapE trie layout is left out. A dictionary is an ordered list of key/value-cell items, and the assumption about the library is stated as `Highload.Faithful`.
- Capacity limits inside the cell library are left out. These are 1023 bits and 4 references per cell, and a failing `WriteUint` or `AddRef`. The model assumes no such limit; the only limits are the explicit 4 and 254.
- A public key is a `Signature.PublicKey` of exactly 32 bytes. Go's `ed25519.Verify` panics on a key of any other length, and a panic is not an outcome the file returns, so such keys are outside the model.
- Error messages are collapsed into the `Error` datatype. The text of each error is not modelled.
- The cell library's `RefsSize` is taken to be the cell's total number of references. So `StripSignature` on a cursor that has already taken references runs out of references, as the copying loop would.
- The `Version` enumeration is declared outside the file. It is restated in wallet.dfy with the wallet generations of the package.
- There is no encoder for a wallet v5 message, because the file has none. `ActionChain.ChainOf` and `Messages.EncodeV5` are a canonical layout used to state the round trips.
- Highload.HighloadRoundTrip: does not cover the empty payload. The encoder writes a 1 marker and a dictionary reference even for no entries, and what the dictionary library stores for an empty non-E Hashmap is not visible.
- Messages.HighloadV2RoundTrip: does not cover the empty payload, for the same reason.
- Wallet.ExtractHighloadV2: does not cover the empty payload, for the same reason.
- Messages.DecodeHighloadV2: states its result only on success. The failure cases are those of the header reads and of `Highload.DecodeHighload`, which states them.
