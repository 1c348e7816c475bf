# Protocol bridge and probe host: a verified model

The repository drives debug probes from a host process. Its protocol bridge puts firmware on a GIGA board and
exchanges framed messages with it over a serial link; the host runtime loads extensions, leases probes, keeps a
hash-chained audit table and deploys the bridge firmware. This project models the parts of it whose correctness
is hard to see from reading one function, and proves what they promise.

## Parts

- **Link codec.** `Bytes`, `Words` and `Crc` hold little-endian fields, octets as 32-bit words and the CRC-32 of
  section 8 of RFC 1952. `Cobs` defines byte stuffing (Cheshire and Baker) once; `HostCobs` and `FirmwareCobs` are
  the host's and the firmware's loops over it. `Frames` and `Messages` are the 20-octet header, segmentation, the
  zero-delimited stream and reassembly. `GoldenVector` derives the frame that the test suite fixes,
  octet by octet.
- **Typed bodies.** `Tlv` defines what a body holds; `HostTlv` and `FirmwareTlv` are the two implementations.
- **Receive queue.** `Records` and `QueueModel` describe six queues of records as values and prove what every run of
  pushes and reads keeps; `Rings` and `ReceiveQueue` are the six circular rings in one 64 KiB array, with the
  draining read that filters and compacts in place, for any tail position.
- **Firmware link.** `DeviceModel` is the firmware's receive loop as a state machine over octets, `DeviceLink` the
  same loop and the sending side over fixed buffers.
- **Extensions.** `Dependencies` is the depth-first order with cycle reports; `RegistryModel` the registrations and
  their inverses; `ExtensionLoader` the load as a transaction, and shutdown.
- **Leases.** `LeaseModel` is a transition system over any number of tasks; `Leases` the manager's dictionaries and
  the tasks, each method proved to take one of its steps.
- **Audit.** `AuditChain` holds the table, its verification, and what verification does and does not detect.
- **Deployment.** `Deployment` runs backup, flash, handshake and restore with a fault possible at every step and other
  tasks running at every wait, on top of the lease manager of `Leases`. Its log of effects (`DeploymentModel`) is
  complete: an invariant ties the lease tables and flash to what the log makes of them, so a claim about the log is a
  claim about both.

Loops and in-place updates of the original are methods, arrays and class fields here, each proved against a
function; the theorems are about those functions and so hold of the methods.

## What the proofs found

- `decode_frame` bounds the stuffed form only (`Frames.StuffedFrameDecodes`). It takes every frame with 4077 payload
  octets and, depending on how the payload stuffs, frames of up to 4093, where `encode_frame` stops at 4076
  (`Frames.LargestPayloadDecodes`, `Frames.DecodedPayloadBounds`). A decoded frame can be encoded again exactly when
  the input stands for at most 4096 octets, the check `encode_frame` makes and `decode_frame` does not
  (`Frames.DecodedFrameEncodes`).
- Re-encoding what was decoded gives the input back exactly when its last block is not full; otherwise the encoder
  adds the closing code that the decoder does not need (`Cobs.EncodeDecode`, `Cobs.OptionalClosingCode`).
- The firmware's decoder takes a zero inside a block as data, where the host refuses it
  (`FirmwareCobs.InnerZerosTellDecodersApart`). The receive loop never passes it one, because it splits at zeros.
- Rolling back a provider registration removes the first equal entry, not the registered one, so an equal entry
  registered by an earlier load moves to the end of the list (`ExtensionLoader.ReorderedProviders` is the smallest
  case). Every failing load of given extensions restores the registry if and only if none of their earlier provider
  entries stands before a different one (`ExtensionLoader.FailedLoadsRestoreExactly`, and
  `FailedValidationsRestoreExactly` where only the final validation fails); nothing else is ever lost
  (`RegistryModel.RollbackRestores`).
- A failed load forgets every loaded extension, those of earlier loads included: `ExtensionManager.Load` ends with
  an empty list.
- The loader catches `Exception` only. What escapes it (SystemExit, KeyboardInterrupt, CancelledError) from a
  configuration, a `register`, the validation or, with no event loop running, a shutdown hook goes past the rollback:
  `ExtensionManager.Load` says exactly when, and what is then left standing.
- The audit chain does not detect rows cut off the end, nor any change to columns other than the payload and the
  two hashes (`AuditChain.PrefixChained`, `AuditChain.ColumnsAreNotCovered`).
- A deployment error does not promise that flash is the original: when the restoration raises or fails, what is
  promised is a backup whose digest authorizes a later restoration. `Deployment.Workflows.DeployProtocolBridge`
  ties each end to the faults that lead to it.
- The staged release is checked when it is staged and not again before it is flashed, so a deployment flashes what
  the staged file has become; only the handshake stands between that and success. The preflight runs before the
  deployment's lease, under leases of its own.
- Called outside a lease, a restoration flashes and verifies under two leases. Its report is about flash at the time
  of the verification, and another task may have written in between.

## Assumptions

- SHA-256 is a function parameter. Of it only the length (and, for deployment, the lower-case form) of its digests
  is used: where the audit results need that two texts do not collide, they name the rows that would collide.
- Lease identifiers are fresh, as random UUIDs are expected to be: every lease draws one that was never drawn before.
- Other tasks end leases only as their own or by an identifier they were given, and write a probe's flash only under
  a lease on it; `LeaseModel.OthersKeep` and `LeaseModel.NobodyElseIsGranted` give what the deployment relies on.
- A probe command that reports success did what it says (saved, loaded, compared); one that fails or raises may
  leave any content behind.

## Model

| member | source | states |
|---|---|---|
| Bytes.UnpackPack | extensions/giga_protocol_bridge/src/jlink_mcp_giga_protocol_bridge/wire.py:22-25 | A little-endian field of any width that can hold the number gives the number back. |
| Bytes.PackUnpack | extensions/giga_protocol_bridge/src/jlink_mcp_giga_protocol_bridge/wire.py:22-25 | Every field image is the image of the number read from it, so parsing a header loses nothing. |
| Words.OctetWord | extensions/giga_protocol_bridge/src/jlink_mcp_giga_protocol_bridge/firmware/protocol_bridge/BridgeWire.h:135-144 | Widening an octet to a 32-bit word keeps its value: the low octet of the word is the octet. |
| Words.WordOctet | extensions/giga_protocol_bridge/src/jlink_mcp_giga_protocol_bridge/firmware/protocol_bridge/BridgeWire.h:135-144 | The low octet of any word, widened again, is the word masked to eight bits. |
| Words.OctetsInjective | extensions/giga_protocol_bridge/src/jlink_mcp_giga_protocol_bridge/wire.py:342-343 | A 32-bit checksum is determined by its four little-endian octets. |
| Crc.BitStepInjective | extensions/giga_protocol_bridge/src/jlink_mcp_giga_protocol_bridge/firmware/protocol_bridge/BridgeWire.h:135-144 | One shift of the checksum register never merges two registers. |
| Crc.AbsorbInjective | extensions/giga_protocol_bridge/src/jlink_mcp_giga_protocol_bridge/firmware/protocol_bridge/BridgeWire.h:135-144 | Absorbing the same octets takes different registers to different registers. |
| Crc.Carry | extensions/giga_protocol_bridge/src/jlink_mcp_giga_protocol_bridge/firmware/protocol_bridge/BridgeWire.h:135-144 | Bits above the octet being consumed only move down: eight steps on c ^ (y << 8) are eight steps on c, exclusive-or y, for y below 2^24. |
| Crc.AbsorbJoined | extensions/giga_protocol_bridge/src/jlink_mcp_giga_protocol_bridge/firmware/protocol_bridge/BridgeWire.h:135-144 | Absorbing up to four octets equals mixing them in as one word and then stepping the register. |
| Crc.SeedComposes | extensions/giga_protocol_bridge/src/jlink_mcp_giga_protocol_bridge/firmware/protocol_bridge/BridgeWire.h:135-152 | The checksum of b seeded with the checksum of a is the checksum of a followed by b, for every seed. |
| Crc.DetectsBurst | extensions/giga_protocol_bridge/src/jlink_mcp_giga_protocol_bridge/firmware/protocol_bridge/BridgeWire.h:135-144 | Two different messages of equal length that differ only within four consecutive octets have different checksums, for every seed. |
| Crc.ShiftOctet | extensions/giga_protocol_bridge/src/jlink_mcp_giga_protocol_bridge/firmware/protocol_bridge/BridgeWire.h:138-142 | The inner loop of eight shifts is the eight-step register function. |
| Crc.ComputeCrc32 | extensions/giga_protocol_bridge/src/jlink_mcp_giga_protocol_bridge/firmware/protocol_bridge/BridgeWire.h:135-144 | The bitwise loop over a buffer range returns the specified checksum of that range. |
| Crc.AbsorbFixtureWord | extensions/arduino_giga/src/jlink_mcp_arduino_giga/firmware/giga_hil/m7/JLinkMCPFixture.h:153-161 | The fixture's inner loops absorb a word exactly as its four octets, low octet first. |
| Crc.ComputeFixtureCrc32 | extensions/arduino_giga/src/jlink_mcp_arduino_giga/firmware/giga_hil/m7/JLinkMCPFixture.h:150-163 | The fixture's word-wise loop returns the octet-wise checksum of the words' little-endian octets. |
| GoldenVector.GoldenChecksum | extensions/giga_protocol_bridge/tests/test_protocol_bridge.py:238-247 | The modelled checksum of the fixed test frame's covered octets is the value inside that frame. |
| GoldenVector.GoldenDecoded | extensions/giga_protocol_bridge/tests/test_protocol_bridge.py:238-247 | Header layout, field order, octet order and checksum of the modelled frame are, octet by octet, those of the fixed test frame. |
| GoldenVector.GoldenFrame | extensions/giga_protocol_bridge/tests/test_protocol_bridge.py:238-248 | The modelled encoder produces the fixed frame, stuffing and delimiter included, and the decoder returns the frame it stands for. |
| Cobs.DecodeEncode | extensions/giga_protocol_bridge/src/jlink_mcp_giga_protocol_bridge/wire.py:282-321 | Decoding undoes encoding on every byte string, by the host's rules and by the firmware's. |
| Cobs.EncodeShape | extensions/giga_protocol_bridge/src/jlink_mcp_giga_protocol_bridge/wire.py:282-301 | An encoding is non-empty, has no zero, and is at least one and at most 1 + len/254 octets longer than the data. |
| Cobs.EncodeDecode | extensions/giga_protocol_bridge/src/jlink_mcp_giga_protocol_bridge/wire.py:304-321 | Whatever decodes is the encoding of its result, except that an input whose last block is full lacks exactly the closing code 1: the walk over the code bytes says which. |
| Cobs.DecodesTo | extensions/giga_protocol_bridge/src/jlink_mcp_giga_protocol_bridge/wire.py:282-321 | The inputs that decode to given data are exactly its encoding and, where that closes a full last block, the encoding without the closing code. |
| Cobs.OptionalClosingCode | extensions/giga_protocol_bridge/src/jlink_mcp_giga_protocol_bridge/wire.py:304-321 | Appending a closing code to a decodable input changes nothing if and only if its last block is full, whatever blocks come before; so decoding is not injective. |
| Cobs.UnstuffLength | extensions/giga_protocol_bridge/src/jlink_mcp_giga_protocol_bridge/wire.py:304-321 | Decoded data is shorter than its encoding. |
| Cobs.UnstuffSize | extensions/giga_protocol_bridge/src/jlink_mcp_giga_protocol_bridge/wire.py:304-321 | How much an input decodes to can be counted from its code bytes without decoding it. |
| Cobs.DecodeAccepts | extensions/giga_protocol_bridge/src/jlink_mcp_giga_protocol_bridge/wire.py:304-321 | The host accepts exactly the non-empty zero-free inputs whose code bytes reach no further than the end. |
| HostCobs.CobsEncode | extensions/giga_protocol_bridge/src/jlink_mcp_giga_protocol_bridge/wire.py:282-301 | The back-patching loop produces the specified encoding of every byte string. |
| HostCobs.CobsDecode | extensions/giga_protocol_bridge/src/jlink_mcp_giga_protocol_bridge/wire.py:304-321 | The host's loop accepts exactly the specified inputs (non-empty, zero-free, no code past the end) and returns the specified data. |
| FirmwareCobs.CobsEncode | extensions/giga_protocol_bridge/src/jlink_mcp_giga_protocol_bridge/firmware/protocol_bridge/BridgeWire.h:154-181 | Returns the host's encoding and its length exactly when it fits the capacity, 0 otherwise, and never writes at or past the capacity. |
| FirmwareCobs.EncodeOctet | extensions/giga_protocol_bridge/src/jlink_mcp_giga_protocol_bridge/firmware/protocol_bridge/BridgeWire.h:162-178 | One turn of the loop continues the encoding by one octet, or proves that the whole encoding does not fit. |
| FirmwareCobs.CobsDecode | extensions/giga_protocol_bridge/src/jlink_mcp_giga_protocol_bridge/firmware/protocol_bridge/BridgeWire.h:183-200 | Reports the decoded length when the data fits, 0 for malformed, too long or empty; on non-empty zero-free input the octets are the host's; nothing at or past the capacity changes. |
| FirmwareCobs.InnerZerosTellDecodersApart | extensions/giga_protocol_bridge/src/jlink_mcp_giga_protocol_bridge/firmware/protocol_bridge/BridgeWire.h:183-200 | The two decoders report differently exactly on inputs with a zero whose code bytes reach no further than the end and stand for something that fits: the firmware takes the zero as data. [2, 0] is one. |
| FirmwareCobs.DecodeBlock | extensions/giga_protocol_bridge/src/jlink_mcp_giga_protocol_bridge/firmware/protocol_bridge/BridgeWire.h:187-198 | One turn over a code byte copies its block and the zero it stands for, or proves that the whole result is a refusal. |
| FirmwareCobs.CopyBlock | extensions/giga_protocol_bridge/src/jlink_mcp_giga_protocol_bridge/firmware/protocol_bridge/BridgeWire.h:190-193 | The copy loop succeeds exactly when the block fits and never passes the capacity. |
| FirmwareCobs.CloseBlock | extensions/giga_protocol_bridge/src/jlink_mcp_giga_protocol_bridge/firmware/protocol_bridge/BridgeWire.h:160-173 | Back-patching turns the open run into a finished block and touches nothing behind it. |
| Frames.EncodeFrameAccepts | extensions/giga_protocol_bridge/src/jlink_mcp_giga_protocol_bridge/wire.py:324-346 | The encoder accepts exactly the frames of version 1 with a 32-bit id, 0 <= index < count < 65536 and at most 4076 payload octets, and bounds their encoded length. |
| Frames.FrameRoundTrip | extensions/giga_protocol_bridge/src/jlink_mcp_giga_protocol_bridge/wire.py:324-392 | Every accepted frame decodes to itself, with and without its delimiter. |
| Frames.DecodedParsed | extensions/giga_protocol_bridge/src/jlink_mcp_giga_protocol_bridge/wire.py:358-384 | The parser accepts nothing but the exact image of the frame it returns. |
| Frames.DecodedFrameEncodes | extensions/giga_protocol_bridge/src/jlink_mcp_giga_protocol_bridge/wire.py:349-392 | Whatever decodes is an encoding of its frame, closing code aside. The frame can be encoded again if and only if the input stands for at most 4096 octets, counted from its code bytes, and the encoder returns the very input if and only if moreover its last block is not full. |
| Frames.OversizeFrameDecodes | extensions/giga_protocol_bridge/src/jlink_mcp_giga_protocol_bridge/wire.py:349-354 | Every frame with a 4077-octet payload, one more than the encoder takes, decodes. |
| Frames.StuffedFrameDecodes | extensions/giga_protocol_bridge/src/jlink_mcp_giga_protocol_bridge/wire.py:349-392 | A stuffed frame, with or without delimiter, decodes to itself if and only if its stuffed form is within 4114 octets: no other bound on its size is checked. |
| Frames.DecodedPayloadBounds | extensions/giga_protocol_bridge/src/jlink_mcp_giga_protocol_bridge/wire.py:349-384 | An input of at most 4097 stuffed octets decodes only to frames that can be encoded again; no input decodes to a payload above 4093 octets. |
| Frames.LargestPayloadDecodes | extensions/giga_protocol_bridge/src/jlink_mcp_giga_protocol_bridge/wire.py:349-354 | With a payload of zeros every frame up to 4093 payload octets decodes, so that bound is attained, while the encoder stops at 4076. |
| Frames.CorruptionRejected | extensions/giga_protocol_bridge/src/jlink_mcp_giga_protocol_bridge/wire.py:355-384 | A frame altered only in its checksum field, or only within four consecutive covered octets, is rejected, whichever field the change hits. |
| Frames.CorruptionReported | extensions/giga_protocol_bridge/src/jlink_mcp_giga_protocol_bridge/wire.py:355-384 | Where the fields checked before it are intact, what is reported of such a corruption is the checksum. |
| Frames.SingleOctetChangeRejected | extensions/giga_protocol_bridge/src/jlink_mcp_giga_protocol_bridge/wire.py:355-384 | Changing any one octet of a frame (header, checksum or payload) makes the decoder refuse whatever stuffs it. |
| Frames.EncodedFramePart | extensions/giga_protocol_bridge/src/jlink_mcp_giga_protocol_bridge/wire.py:324-346 | An encoded frame is one non-empty zero-free part and its delimiter, and the part decodes alone. |
| Messages.MessageRoundTrip | extensions/giga_protocol_bridge/src/jlink_mcp_giga_protocol_bridge/wire.py:395-452 | A message is accepted exactly up to 65,536 octets and 32-bit ids, and then encoding, splitting, decoding and reassembling return the payload. |
| Messages.OnlyTheMessageReassembles | extensions/giga_protocol_bridge/src/jlink_mcp_giga_protocol_bridge/wire.py:425-452 | Of all lists drawn from a message's frames and frames of other ids or types (dropped, repeated, reordered, mixed), only the message itself is reassembled. |
| Messages.ReassembleAccepts | extensions/giga_protocol_bridge/src/jlink_mcp_giga_protocol_bridge/wire.py:425-452 | Reassembly accepts exactly complete in-sequence lists of one id and type whose payloads total at most 64 KiB. |
| Messages.ReassembleDefaults | extensions/giga_protocol_bridge/src/jlink_mcp_giga_protocol_bridge/wire.py:425-452 | An identifier or type that the caller leaves open is that of the first frame. |
| Messages.MessageFitsSerialRequest | src/jlink_mcp/backends/serial.py:104-105 | Every accepted message takes 1 to 17 frames and 1 to 66,167 octets, so the serial backend's size check always passes. |
| Messages.StreamRoundTrip | extensions/giga_protocol_bridge/src/jlink_mcp_giga_protocol_bridge/wire.py:418-422 | Any list of encodable frames survives concatenation and splitting at zeros; the stream ends in a delimiter. |
| Messages.StreamOfParts | extensions/giga_protocol_bridge/src/jlink_mcp_giga_protocol_bridge/wire.py:418-422 | A stream that ends in a delimiter is accepted if and only if every non-empty part between delimiters decodes by itself, and is then those frames in order. |
| Messages.StreamsAreParts | extensions/giga_protocol_bridge/src/jlink_mcp_giga_protocol_bridge/wire.py:418-422 | Every byte string is zero-free parts, each with its delimiter, or is refused for a part cut short. |
| Messages.DamagedStreamRefused | extensions/giga_protocol_bridge/src/jlink_mcp_giga_protocol_bridge/wire.py:418-422 | A stream in which one frame has an octet changed is refused as a whole, wherever the frame stands and however it is stuffed. |
| Messages.ChunksShape | extensions/giga_protocol_bridge/src/jlink_mcp_giga_protocol_bridge/wire.py:400-407 | Segments concatenate to the payload, all but the last are full, and only an empty payload has an empty segment. |
| Tlv.DecodeEncode | extensions/giga_protocol_bridge/src/jlink_mcp_giga_protocol_bridge/wire.py:455-489 | Encoding succeeds exactly for in-range, distinct fields of at most 65,536 octets in all, and decoding returns them in order. |
| Tlv.EncodeDecode | extensions/giga_protocol_bridge/src/jlink_mcp_giga_protocol_bridge/wire.py:455-489 | Every accepted body is the encoding of the dictionary it decodes to, in wire order. |
| Tlv.DecodeAccepts | extensions/giga_protocol_bridge/src/jlink_mcp_giga_protocol_bridge/wire.py:472-489 | Decoding accepts exactly the bodies that scan completely into distinct, allowed types, and yields the scanned fields. |
| Tlv.DecodeComplains | extensions/giga_protocol_bridge/src/jlink_mcp_giga_protocol_bridge/wire.py:472-489 | A refused body is refused for its first field that repeats a type or is not allowed, or else for how its end is cut short. |
| Tlv.EncodeComplains | extensions/giga_protocol_bridge/src/jlink_mcp_giga_protocol_bridge/wire.py:455-469 | A refused list of fields is refused for its first field that repeats a type or is out of range. |
| Tlv.ScanBody | extensions/giga_protocol_bridge/src/jlink_mcp_giga_protocol_bridge/wire.py:455-489 | Scanning the image of any fields, followed by anything, finds those fields first. |
| Tlv.BodyScan | extensions/giga_protocol_bridge/src/jlink_mcp_giga_protocol_bridge/wire.py:472-489 | A completely scanned body is the image of its fields: no other byte string scans to them. |
| HostTlv.EncodeFields | extensions/giga_protocol_bridge/src/jlink_mcp_giga_protocol_bridge/wire.py:455-469 | The encoding loop returns the specified body or the specified first error. |
| HostTlv.DecodeFields | extensions/giga_protocol_bridge/src/jlink_mcp_giga_protocol_bridge/wire.py:472-489 | The decoding loop returns the specified dictionary or the specified error, for every body and allowed set. |
| FirmwareTlv.TlvReader.Valid | extensions/giga_protocol_bridge/src/jlink_mcp_giga_protocol_bridge/firmware/protocol_bridge/BridgeWire.h:206-223 | The in-place walk with its quadratic duplicate scan accepts exactly the bodies the host decodes. |
| FirmwareTlv.TlvReader.Repeats | extensions/giga_protocol_bridge/src/jlink_mcp_giga_protocol_bridge/firmware/protocol_bridge/BridgeWire.h:212-219 | The inner scan finds whether a type occurs among the fields walked so far. |
| FirmwareTlv.TlvReader.Find | extensions/giga_protocol_bridge/src/jlink_mcp_giga_protocol_bridge/firmware/protocol_bridge/BridgeWire.h:225-241 | Finds a field exactly when it is the only one of its type and no value is cut short, and returns its offset in the body and its size. |
| FirmwareTlv.TlvReader.OnlyKnown | extensions/giga_protocol_bridge/src/jlink_mcp_giga_protocol_bridge/firmware/protocol_bridge/BridgeWire.h:276-286 | Accepts exactly when every scanned field's type satisfies the predicate. |
| FirmwareTlv.FindMatchesDictionary | extensions/giga_protocol_bridge/src/jlink_mcp_giga_protocol_bridge/firmware/protocol_bridge/BridgeWire.h:225-241 | On a body the host decodes, lookup is the host dictionary's: its value, or nothing exactly when the type is absent. |
| FirmwareTlv.KnownMatchesAllowed | extensions/giga_protocol_bridge/src/jlink_mcp_giga_protocol_bridge/firmware/protocol_bridge/BridgeWire.h:276-286 | Validity and known types together are exactly the host's decoding with an allowed set. |
| FirmwareTlv.TlvWriter.Append | extensions/giga_protocol_bridge/src/jlink_mcp_giga_protocol_bridge/firmware/protocol_bridge/BridgeWire.h:298-306 | Appends exactly one field image when it fits the capacity, and otherwise changes nothing. |
| FirmwareTlv.AppendedDecodes | extensions/giga_protocol_bridge/src/jlink_mcp_giga_protocol_bridge/firmware/protocol_bridge/BridgeWire.h:298-306 | What successful appends of distinct types have written decodes on the host to exactly those fields, in order. |
| Records.SerialInjective | extensions/giga_protocol_bridge/src/jlink_mcp_giga_protocol_bridge/firmware/protocol_bridge/BridgeResources.h:55-61 | Record boundaries are not lost: a ring's octets determine its records. |
| Records.SelectExactly | extensions/giga_protocol_bridge/src/jlink_mcp_giga_protocol_bridge/firmware/protocol_bridge/BridgeResources.h:89-121 | A read delivers the longest prefix of the channel's records that fits and removes exactly those; all other records keep their order. |
| Records.FittingSize | extensions/giga_protocol_bridge/src/jlink_mcp_giga_protocol_bridge/firmware/protocol_bridge/BridgeResources.h:103-105 | The delivered prefix fits the limit and one record more would not. |
| Records.SelectConserves | extensions/giga_protocol_bridge/src/jlink_mcp_giga_protocol_bridge/firmware/protocol_bridge/BridgeResources.h:89-121 | For every channel, delivered and remaining records together are its records, in order. |
| Records.SelectSound | extensions/giga_protocol_bridge/src/jlink_mcp_giga_protocol_bridge/firmware/protocol_bridge/BridgeResources.h:89-121 | Octets are conserved between what is delivered and what is kept, and delivery stays within the limit. |
| Records.ReadsDrain | extensions/giga_protocol_bridge/src/jlink_mcp_giga_protocol_bridge/firmware/protocol_bridge/BridgeResources.h:89-121 | Reads whose limits hold the largest record empty a channel within as many reads as it has records. |
| Records.ReadsConserve | extensions/giga_protocol_bridge/src/jlink_mcp_giga_protocol_bridge/firmware/protocol_bridge/BridgeResources.h:89-121 | After any number of reads with any limits, what a channel delivered and what is left of it are its records in order, and every other channel is unchanged. |
| QueueModel.FirstInFirstOut | extensions/giga_protocol_bridge/src/jlink_mcp_giga_protocol_bridge/firmware/protocol_bridge/BridgeResources.h:74-121 | Over every run from power-up, the records accepted on a channel are those delivered followed by those still queued: nothing lost, duplicated, reordered or invented. |
| QueueModel.RunConserves | extensions/giga_protocol_bridge/src/jlink_mcp_giga_protocol_bridge/firmware/protocol_bridge/BridgeResources.h:74-121 | The same over every run from any state. |
| QueueModel.RunBounded | extensions/giga_protocol_bridge/src/jlink_mcp_giga_protocol_bridge/firmware/protocol_bridge/BridgeResources.h:74-121 | No run overfills a slice or stores an ill-formed record. |
| QueueModel.PushExactly | extensions/giga_protocol_bridge/src/jlink_mcp_giga_protocol_bridge/firmware/protocol_bridge/BridgeResources.h:74-87 | In octets: for protocols 2 to 7 a record is appended exactly when the ring with it takes at most a sixth of 64 KiB, and otherwise the counter alone moves, modulo 2^32; for any other protocol nothing does. |
| QueueModel.ReadExactly | extensions/giga_protocol_bridge/src/jlink_mcp_giga_protocol_bridge/firmware/protocol_bridge/BridgeResources.h:89-121 | A read delivers the longest prefix of the channel that fits the limit, and draining removes exactly that prefix. |
| QueueModel.QueuedWithinSlice | extensions/giga_protocol_bridge/src/jlink_mcp_giga_protocol_bridge/firmware/protocol_bridge/BridgeResources.h:74-121 | Over every run, all pushes of a protocol are queued if and only if what was queued and pushed never exceeds, less what was drained, a slice. |
| QueueModel.NothingIsRefused | extensions/giga_protocol_bridge/src/jlink_mcp_giga_protocol_bridge/firmware/protocol_bridge/BridgeResources.h:74-121 | Within that balance every pushed record is delivered or still queued, in push order on its channel, and the overflow counter stands still. |
| QueueModel.OverflowCounts | extensions/giga_protocol_bridge/src/jlink_mcp_giga_protocol_bridge/firmware/protocol_bridge/BridgeResources.h:79-82 | The overflow counter is the number of refused pushes of the run, modulo 2^32. |
| QueueModel.ProtocolsAreIsolated | extensions/giga_protocol_bridge/src/jlink_mcp_giga_protocol_bridge/firmware/protocol_bridge/BridgeResources.h:63-121 | A protocol's queue and counter evolve as if only its own operations had been performed. |
| QueueModel.ReadsAreSteps | extensions/giga_protocol_bridge/src/jlink_mcp_giga_protocol_bridge/firmware/protocol_bridge/BridgeResources.h:89-121 | A run of draining reads of one channel is the repeated selection on that protocol's records and changes no other queue. |
| QueueModel.DrainEmptiesChannel | extensions/giga_protocol_bridge/src/jlink_mcp_giga_protocol_bridge/firmware/protocol_bridge/BridgeResources.h:89-144 | Enough draining reads with room for the largest record leave the channel empty, have delivered its records in push order, and leave every other channel of every protocol unchanged. |
| ReceiveQueue.SharedReceiveQueue.constructor | extensions/giga_protocol_bridge/src/jlink_mcp_giga_protocol_bridge/firmware/protocol_bridge/BridgeResources.h:69-72 | The cleared storage is the initial state, and the ring invariant (head = (tail + used) mod slice, used <= slice, octets are whole records) holds. |
| ReceiveQueue.SharedReceiveQueue.Push | extensions/giga_protocol_bridge/src/jlink_mcp_giga_protocol_bridge/firmware/protocol_bridge/BridgeResources.h:74-87 | A record is appended to its protocol's ring, in octets behind the others, if and only if the ring with it fits a sixth of the storage; else the overflow counter alone moves; other slices untouched. |
| ReceiveQueue.SharedReceiveQueue.Read | extensions/giga_protocol_bridge/src/jlink_mcp_giga_protocol_bridge/firmware/protocol_bridge/BridgeResources.h:89-121 | Takes exactly the model's read step for any tail; the output is the serial form of the delivered records and nothing behind it changes. |
| ReceiveQueue.SharedReceiveQueue.ReadRing | extensions/giga_protocol_bridge/src/jlink_mcp_giga_protocol_bridge/firmware/protocol_bridge/BridgeResources.h:93-119 | The circular in-place compaction leaves exactly the records that were not delivered, in order. |
| ReceiveQueue.SharedReceiveQueue.Retain | extensions/giga_protocol_bridge/src/jlink_mcp_giga_protocol_bridge/firmware/protocol_bridge/BridgeResources.h:106-109 | Sliding a record towards the tail keeps both the retained prefix and everything not yet read. |
| ReceiveQueue.SharedReceiveQueue.Settle | extensions/giga_protocol_bridge/src/jlink_mcp_giga_protocol_bridge/firmware/protocol_bridge/BridgeResources.h:114-119 | The unread remainder is appended to what was retained and head and used describe the result. |
| ReceiveQueue.SharedReceiveQueue.Depth | extensions/giga_protocol_bridge/src/jlink_mcp_giga_protocol_bridge/firmware/protocol_bridge/BridgeResources.h:123-126 | The octets queued for a protocol are the size of its records. |
| ReceiveQueue.SharedReceiveQueue.ChannelDepth | extensions/giga_protocol_bridge/src/jlink_mcp_giga_protocol_bridge/firmware/protocol_bridge/BridgeResources.h:128-144 | The walk adds up exactly the channel's own records. |
| ReceiveQueue.SharedReceiveQueue.Overflow | extensions/giga_protocol_bridge/src/jlink_mcp_giga_protocol_bridge/firmware/protocol_bridge/BridgeResources.h:146-149 | Reports the protocol's counter, 0 for a protocol without a ring. |
| ReceiveQueue.SharedReceiveQueue.Write | extensions/giga_protocol_bridge/src/jlink_mcp_giga_protocol_bridge/firmware/protocol_bridge/BridgeResources.h:174-180 | Octets written at the head appear in order behind the used part of the ring, across the wrap. |
| ReceiveQueue.SharedReceiveQueue.Copy | extensions/giga_protocol_bridge/src/jlink_mcp_giga_protocol_bridge/firmware/protocol_bridge/BridgeResources.h:182-189 | Overlapping circular copying towards the tail moves the original octets, none of them overwritten before it is read. |
| ReceiveQueue.SharedReceiveQueue.Peek | extensions/giga_protocol_bridge/src/jlink_mcp_giga_protocol_bridge/firmware/protocol_bridge/BridgeResources.h:191-196 | Octets are copied out in ring order, across the wrap. |
| DeviceModel.FrameCrcIsHostCrc | extensions/giga_protocol_bridge/src/jlink_mcp_giga_protocol_bridge/firmware/protocol_bridge/BridgeWire.h:146-152 | The firmware's two-part frame checksum is the host's checksum over prefix and payload. |
| DeviceModel.AcceptedHeaderParses | extensions/giga_protocol_bridge/src/jlink_mcp_giga_protocol_bridge/firmware/protocol_bridge/protocol_bridge.ino:1372-1378 | The firmware accepts exactly the frames the host's parser accepts as requests. |
| DeviceModel.RequestIsDispatched | extensions/giga_protocol_bridge/src/jlink_mcp_giga_protocol_bridge/firmware/protocol_bridge/protocol_bridge.ino:1365-1402 | From any state between frames, with any assembly under way, the host's encoding of a request is dispatched once, whole, and leaves the link idle. |
| DeviceModel.LinkResynchronises | extensions/giga_protocol_bridge/src/jlink_mcp_giga_protocol_bridge/firmware/protocol_bridge/protocol_bridge.ino:1496-1510 | Whatever octets came before, after one delimiter the next request gets through. |
| DeviceModel.FrameAnswered | extensions/giga_protocol_bridge/src/jlink_mcp_giga_protocol_bridge/firmware/protocol_bridge/protocol_bridge.ino:1366-1398 | Every complete frame, by the host's reading of it: too short or too long, it is passed over; not a request to the host's parser, or out of sequence or too much, it is answered once and breaks the message under way; else it starts, continues or completes one. |
| DeviceModel.DamagedRequestIsRefused | extensions/giga_protocol_bridge/src/jlink_mcp_giga_protocol_bridge/firmware/protocol_bridge/protocol_bridge.ino:1366-1398 | A request of which one frame arrives damaged is never dispatched: that frame is answered once and so is every later one. |
| DeviceModel.OverlongBreaksAssembly | extensions/giga_protocol_bridge/src/jlink_mcp_giga_protocol_bridge/firmware/protocol_bridge/protocol_bridge.ino:1496-1510 | More octets without a delimiter than the buffer holds are dropped, and the message under way with them. |
| DeviceModel.OnlyRequestsAreDispatched | extensions/giga_protocol_bridge/src/jlink_mcp_giga_protocol_bridge/firmware/protocol_bridge/protocol_bridge.ino:1365-1402 | Over arbitrary octets from power-up, whatever is dispatched is what the host's reassembly makes of consecutive frames that the link accepted, under the request's identifier: all segments of one request, in order. |
| DeviceModel.DispatchedIsHeard | extensions/giga_protocol_bridge/src/jlink_mcp_giga_protocol_bridge/firmware/protocol_bridge/protocol_bridge.ino:1365-1402 | The same from any state in which the message under way and the requests dispatched come from frames accepted before. |
| DeviceLink.ComputeFrameCrc | extensions/giga_protocol_bridge/src/jlink_mcp_giga_protocol_bridge/firmware/protocol_bridge/BridgeWire.h:146-152 | The checksum over header and payload in one buffer is the two-part checksum. |
| DeviceLink.BridgeLink.TakeOctet | extensions/giga_protocol_bridge/src/jlink_mcp_giga_protocol_bridge/firmware/protocol_bridge/protocol_bridge.ino:1496-1510 | The receive loop takes exactly the modelled step on every octet, including overlong input. |
| DeviceLink.BridgeLink.ConsumeFrame | extensions/giga_protocol_bridge/src/jlink_mcp_giga_protocol_bridge/firmware/protocol_bridge/protocol_bridge.ino:1365-1402 | A complete frame is decoded, checked and assembled as modelled, on the fixed buffers. |
| DeviceLink.BridgeLink.CheckHeader | extensions/giga_protocol_bridge/src/jlink_mcp_giga_protocol_bridge/firmware/protocol_bridge/protocol_bridge.ino:1372-1378 | The header test on the buffer is the modelled acceptance. |
| DeviceLink.BridgeLink.AcceptSegment | extensions/giga_protocol_bridge/src/jlink_mcp_giga_protocol_bridge/firmware/protocol_bridge/protocol_bridge.ino:1383-1402 | A segment extends, completes or breaks the message under way as modelled, never past the assembly buffer. |
| DeviceLink.BridgeLink.ClearAssembly | extensions/giga_protocol_bridge/src/jlink_mcp_giga_protocol_bridge/firmware/protocol_bridge/protocol_bridge.ino:172-178 | The assembly is reset and its octets are wiped. |
| DeviceLink.SendMessage | extensions/giga_protocol_bridge/src/jlink_mcp_giga_protocol_bridge/firmware/protocol_bridge/protocol_bridge.ino:180-211 | The firmware's transmission of any body is the host's encoding of that message, octet for octet. |
| DeviceLink.EmitFrame | extensions/giga_protocol_bridge/src/jlink_mcp_giga_protocol_bridge/firmware/protocol_bridge/protocol_bridge.ino:190-210 | One frame built in the fixed buffers, stuffed and delimited, is the host's encoding of it and always fits. |
| Dependencies.CheckComplete | src/jlink_mcp/extensions/loader.py:260-266 | Reports the first extension that lacks dependencies with all it lacks; reports none exactly when the graph is complete. |
| Dependencies.TopologicalOrder | src/jlink_mcp/extensions/loader.py:256-286 | Returns an order of every extension once, each after its dependencies, exactly when dependencies are complete and acyclic; otherwise the missing dependencies, or a path that is a real cycle. An enabled list already in order is kept. |
| Dependencies.Search.Visit | src/jlink_mcp/extensions/loader.py:271-282 | The recursive search ends, keeps finished extensions in dependency order, and fails only with a real cycle. |
| Dependencies.OrderRefutesCycle | src/jlink_mcp/extensions/loader.py:256-286 | A graph with a dependency order has no cycle, so an order and a cycle report exclude each other. |
| Dependencies.PositionsDescend | src/jlink_mcp/extensions/loader.py:256-286 | Along any chain of dependencies, positions in a dependency order strictly descend. |
| Dependencies.ReportedCycle | src/jlink_mcp/extensions/loader.py:274-276 | The part of the search path from the revisited extension on, closed by it, is a cycle of the graph. |
| RegistryModel.RevertRegister | src/jlink_mcp/extensions/api.py:242-362 | Each registration's recorded inverse undoes it; only an earlier equal provider entry ends up in another place. |
| RegistryModel.RegisterFinds | src/jlink_mcp/extensions/api.py:242-362 | A registration raises exactly when its place is taken or the server library refuses; otherwise its value is found at its place and no other place has changed. |
| RegistryModel.FirstClaimWins | src/jlink_mcp/extensions/api.py:242-362 | Over every history of registrations, a lookup finds what was there before, or else the first value registered for that place (namespaced for detectors, by owner for services). |
| RegistryModel.ProvidersAccumulate | src/jlink_mcp/extensions/api.py:257-269 | Over every history the provider lists are the earlier ones followed by every contributed entry, in order. |
| RegistryModel.OneProviderRestored | src/jlink_mcp/extensions/api.py:257-269 | Registering one provider, of either kind, and undoing it restores the registry if and only if no earlier equal entry is followed by a different one. |
| RegistryModel.RotateAllRestores | src/jlink_mcp/extensions/api.py:257-269 | Whatever a set of extensions registers in a provider list and takes back leaves the list as it was, if and only if none of their earlier entries stands before a different one. |
| RegistryModel.AppendedRemoved | src/jlink_mcp/extensions/api.py:257-269 | Appending entries and removing each by value, last first, moves earlier equal entries to the end and changes nothing else. |
| RegistryModel.RollbackRestores | src/jlink_mcp/extensions/api.py:230-240 | Over every history of registrations by any extensions, running the inverses in reverse never raises and restores profiles, detectors, tools, resources, services and infos, and the provider lists up to that move. |
| RegistryModel.RollbackIsExact | src/jlink_mcp/extensions/api.py:230-240 | Where no registered provider entry was present before, the rollback restores the registry exactly. |
| RegistryModel.RevertAllLists | src/jlink_mcp/extensions/api.py:230-240 | Undoing any actions changes a provider list as removing the recorded entries, last first, does. |
| ExtensionLoader.ExtensionRegistry.Undo | src/jlink_mcp/extensions/api.py:244-360 | Each inverse action changes its table as modelled, and only a missing provider entry raises. |
| ExtensionLoader.ExtensionContext.Contribute | src/jlink_mcp/extensions/api.py:242-362 | A registration either raises and changes nothing or takes effect and records its inverse. |
| ExtensionLoader.ExtensionContext.RollbackRegistration | src/jlink_mcp/extensions/api.py:230-240 | Runs every recorded action, last first, past those that raise, and forgets them. |
| ExtensionLoader.ExtensionContext.RequireService | src/jlink_mcp/extensions/api.py:280-291 | A service is found exactly when it is published and belongs to the extension itself or to a declared dependency. |
| ExtensionLoader.ExtensionContext.RunScript | src/jlink_mcp/extensions/loader.py:111-117 | A `register`, going on after each call by whether it raised, has recorded the inverses of everything it did wherever it stops, by an exception that the loader catches or by one that escapes it. |
| ExtensionLoader.PlainRegister | src/jlink_mcp/extensions/api.py:242-362 | A `register` that catches nothing returns if and only if each registration's place is free at the start and not taken by an earlier one, and each service it requires is its own or a declared dependency's and published by then; otherwise it raises at the first call that fails, exactly those before it made. |
| ExtensionLoader.ExtensionManager.StartAll | src/jlink_mcp/extensions/loader.py:88-125 | The loop stops at the first configuration or `register` that does not return, with every context recorded and the extensions before it loaded. |
| ExtensionLoader.LoadStops | src/jlink_mcp/extensions/loader.py:88-125 | A load passes and records the extensions whose configuration and `register` return, and ends at the first of which one does not, as that ends, its `register` entered only if it was configured. |
| ExtensionLoader.ExtensionManager.RollBack | src/jlink_mcp/extensions/loader.py:135-136 | Rolling the contexts back, last first, undoes all their actions in reverse order of registration. |
| ExtensionLoader.ExtensionManager.Load | src/jlink_mcp/extensions/loader.py:84-144 | A load commits exactly when every configuration and `register` returned and, last, the validation; it lets an exception escape exactly when one escaped those or, without an event loop, a shutdown hook; else it rolls back: it stops what was started, last first, reports the hooks that raised and no error of its own, and restores the registry, up to the order of a provider list that was not settled for these extensions. What escapes leaves everything as it stands. |
| ExtensionLoader.ExtensionManager.LoadEnabled | src/jlink_mcp/extensions/loader.py:59-144 | A whole load refuses missing or cyclic dependencies untouched. Otherwise it loads in a dependency order, which takes every configuration and `register` and the final validation returning; or it names the order in which one of these raised, and exactly then stops those started, dependents before their dependencies, and restores the registry as `Load` does; or an exception escaped, and everything stands. |
| ExtensionLoader.FailedLoadLeavesNothing | src/jlink_mcp/extensions/loader.py:84-144 | In a registry settled for the extensions to load, a failed load leaves nothing, whatever they do and wherever they fail. |
| ExtensionLoader.UnsettledLoadMoves | src/jlink_mcp/extensions/loader.py:84-144 | In any other registry some extensions with these identifiers fail, or return to a validation that fails, and leave a provider list in another order. |
| ExtensionLoader.FailedLoadsRestoreExactly | src/jlink_mcp/extensions/loader.py:84-144 | Every failing load of given extensions restores the registry if and only if in neither provider list an earlier entry of theirs stands before a different one, which can be read off before the load. |
| ExtensionLoader.FailedValidationsRestoreExactly | src/jlink_mcp/extensions/loader.py:126-144 | The same condition is exact for the loads of which only the final validation fails. |
| ExtensionLoader.ReorderedProviders | src/jlink_mcp/extensions/loader.py:84-144 | The smallest failing case: with providers of a and b registered, a registers its own again, fails, and ends up behind b. |
| ExtensionLoader.RunLoadReaches | src/jlink_mcp/extensions/loader.py:88-125 | Wherever a load stops, its recorded inverses belong to a history of registrations that leads to the current state. |
| ExtensionLoader.DependentsStopFirst | src/jlink_mcp/extensions/loader.py:146-155 | Shutting down the started part of a dependency order in reverse stops each extension once, before the extensions it depends on. |
| ExtensionLoader.ExtensionManager.Shutdown | src/jlink_mcp/extensions/loader.py:146-155 | Hooks run last loaded first, past those that raise, and all raising extensions are reported; what escapes a hook keeps the rest from running and the list from being cleared. |
| ExtensionLoader.ExtensionManager.RunHooks | src/jlink_mcp/extensions/loader.py:157-170 | Hooks run once each, last started first, past those that raise, up to one that lets something escape; the raising ones are reported in that order. |
| ExtensionLoader.RaisingSplits | src/jlink_mcp/extensions/loader.py:157-170 | A hook is reported exactly if it raised, in the place it ran. |
| ExtensionLoader.NoneEscapes | src/jlink_mcp/extensions/loader.py:157-170 | The hooks that run are all of them, or those up to the first that lets something escape. |
| LeaseModel.StepInv | src/jlink_mcp/leases.py:33-96 | Every step of every task keeps the active, by-id, task and lock tables in agreement and accounts for every taken lock. |
| LeaseModel.RunInv | src/jlink_mcp/leases.py:33-96 | The same over every interleaving of any number of tasks. |
| LeaseModel.OneLeasePerProbe | src/jlink_mcp/leases.py:37-83 | In every reachable state two live leases on one probe are the same lease. |
| LeaseModel.LeaseEnds | src/jlink_mcp/leases.py:85-96 | A live lease survives a step exactly when the step does not end it; ending it frees its probe and nothing else. |
| LeaseModel.NobodyElseIsGranted | src/jlink_mcp/leases.py:67-72 | While a lease is live no waiting task can be granted its probe. |
| LeaseModel.ExclusiveUntilEnded | src/jlink_mcp/leases.py:37-96 | A lease that no step of a run ends stays live, and no other lease on its probe is recorded, throughout the run. |
| LeaseModel.ReleaseAgrees | src/jlink_mcp/leases.py:85-96 | Releasing keeps the tables in agreement; an unknown id changes nothing and a known one frees its lock. |
| LeaseModel.LeaseRoundTrip | src/jlink_mcp/leases.py:58-96 | Acquiring a free probe and releasing the lease restores every table. |
| LeaseModel.StaleReleaseIsHarmless | src/jlink_mcp/leases.py:85-91 | Releasing an id that is not live changes nothing, even when the probe is leased again. |
| LeaseModel.StaleBlockIsHarmless | src/jlink_mcp/leases.py:53-56 | A block whose lease was released by id closes without touching the tables. |
| LeaseModel.NestedBlockIsTransparent | src/jlink_mcp/leases.py:45-51 | A block opened by the task that holds the probe yields the held lease, acquires nothing, and closes without releasing. |
| LeaseModel.NestedExitReleasesNothing | src/jlink_mcp/leases.py:45-51 | Over any run of all tasks between a nested entry and its exit, the exit ends no lease and leaves every table alone, whatever became of the lease it continued. |
| LeaseModel.OuterExitReleases | src/jlink_mcp/leases.py:50-56 | Over any run of all tasks from inside a block that acquired to its exit, a lease that nobody released by identifier stands until the exit, which ends it and frees its probe. |
| LeaseModel.AcquiresAsAsked | src/jlink_mcp/leases.py:37-83 | However other tasks interleave, whoever comes to record a lease holds it under the name and on the probe it asked for; from `lease` it is in a block that acquired, from `acquire` no block has opened. |
| LeaseModel.GrantedWhenFree | src/jlink_mcp/leases.py:63-83 | In every reachable state a waiting task can be granted its probe if and only if the probe has no lease and no other task has been handed its lock. |
| LeaseModel.OthersKeep | src/jlink_mcp/leases.py:37-96 | Over any run of other tasks that does not end its lease, a task finds its lease as it left it, and a lock it was served still its own. |
| Leases.ProbeLeaseManager.Held | src/jlink_mcp/leases.py:45-49 | The re-entrancy test finds exactly the lease this task holds on the probe. |
| Leases.ProbeLeaseManager.Commit | src/jlink_mcp/leases.py:74-83 | Recording a lease is the modelled update of the three tables. |
| Leases.ProbeLeaseManager.Holder | src/jlink_mcp/leases.py:70-72 | The owner named on a timeout is the owner of the probe's live lease. |
| Leases.ProbeLeaseManager.ReleaseLease | src/jlink_mcp/leases.py:85-96 | Releasing is the modelled update, stale ids included. |
| Leases.ProbeLeaseManager.ActiveLeases | src/jlink_mcp/leases.py:98-99 | Lists exactly the live leases, each probe once. |
| Leases.EventLoop.Enter | src/jlink_mcp/leases.py:45-52 | Entering `lease` is the modelled step: continue the own lease or begin to acquire. |
| Leases.EventLoop.Ask | src/jlink_mcp/leases.py:58-67 | Calling `acquire` directly is the modelled step; it never continues a lease already held. |
| Leases.EventLoop.Wait | src/jlink_mcp/leases.py:67-69 | Looking the lock up and starting to wait is the modelled step. |
| Leases.EventLoop.TimeOut | src/jlink_mcp/leases.py:70-73 | Giving up the wait is the modelled step and names the owner of the probe's live lease, if there is one. |
| Leases.EventLoop.Serve | src/jlink_mcp/leases.py:69 | Being handed the lock is the modelled step. |
| Leases.EventLoop.Resume | src/jlink_mcp/leases.py:74-83 | Resuming with the lock is the modelled step that records the lease. |
| Leases.EventLoop.Exit | src/jlink_mcp/leases.py:53-56 | Leaving a block is the modelled step: release what it acquired, nothing if nested. |
| Leases.EventLoop.Free | src/jlink_mcp/leases.py:85-96 | Releasing by identifier, by whoever knows it, is the modelled step. |
| AuditChain.VerifyChain | src/jlink_mcp/store.py:224-239 | The loop returns the first row that does not continue the chain, and whether its link or its hash is at fault. |
| AuditChain.VerifyAcceptsChained | src/jlink_mcp/store.py:224-239 | Verification accepts a table if and only if every row links to the row before it and hashes its own text. |
| AuditChain.FaultLocated | src/jlink_mcp/store.py:224-239 | In any table verification stops at the first row that does not continue the chain, with the complaint that applies to it. |
| AuditChain.AppendedVerifies | src/jlink_mcp/store.py:81-107 | Every table built by appending, refusals included, verifies and has rising sequence numbers and no repeated id or hash. |
| AuditChain.AppendsExactly | src/jlink_mcp/store.py:82-105 | One append, column by column, whether it adds its row or is refused. |
| AuditChain.AllAppended | src/jlink_mcp/store.py:82-105 | Every entry is recorded, as given, in order, numbered from one and linked by the hashes of the payloads, if and only if no operation id and no chain hash repeats. |
| AuditChain.AcceptedInOrder | src/jlink_mcp/store.py:82-105 | Whatever repeats, the rows are the entries that were not refused, as given and in order. |
| AuditChain.AuditStore.AppendOperation | src/jlink_mcp/store.py:64-107 | An append stores the given columns and payload behind the others, linked to the last hash, and returns the hash of that and the payload; it is refused exactly when its operation id or hash is there already, and then changes nothing. |
| AuditChain.RefusalExplained | src/jlink_mcp/store.py:81-107 | On a valid table an append is refused only for a repeated operation id, unless two texts collide or one hashes to 64 zeros. |
| AuditChain.LastHashFixesPayloads | src/jlink_mcp/store.py:224-239 | Two accepted tables of equal length have the same payload in every row if and only if their last hashes agree and no row pair collides: edits, swaps and substitutions are detected. |
| AuditChain.LastHashFixesLength | src/jlink_mcp/store.py:224-239 | Accepted tables of different lengths with one last hash show a collision or a row that hashes to 64 zeros. |
| AuditChain.EditLocated | src/jlink_mcp/store.py:224-239 | Editing one payload is reported as a hash mismatch at that row, unless the edit collides. |
| AuditChain.RemovalLocated | src/jlink_mcp/store.py:224-239 | Removing any inner block of rows is reported as a link mismatch at the first row after it, unless the chain stood at the same hash before and after the block. |
| AuditChain.PrefixChained | src/jlink_mcp/store.py:224-239 | Cutting rows off the end is not detected: every prefix of an accepted table is accepted. |
| AuditChain.ColumnsAreNotCovered | src/jlink_mcp/store.py:224-239 | Changing operation ids, times, probes, actions or destructive flags anywhere changes no verdict. |
| AuditChain.SameEntrySameRow | src/jlink_mcp/store.py:82-88 | The fixed 64-character previous hash makes the hashed text unambiguous: equal entry hashes without a collision mean equal payload and equal previous hash. |
| DeploymentModel.UnwrittenKeepsFlash | src/jlink_mcp/leases.py:37-96 | Under a lease, whatever the other tasks do, the lease stays and flash is what it was for as long as this task writes nothing. |
| DeploymentModel.FlashAtBackup | extensions/giga_protocol_bridge/src/jlink_mcp_giga_protocol_bridge/workflows.py:382-394 | A log in which nothing is written before a successful backup leaves flash alone up to that backup. |
| Deployment.Workflows.Yield | src/jlink_mcp/leases.py:67-69 | While the task waits others change the lease tables, but not its lease or a lock handed to it, and flash only while it has no lease. |
| Deployment.Workflows.Acquire | src/jlink_mcp/leases.py:58-83 | Gives up exactly when the wait times out or leaves the lock with another task, and otherwise holds a lease under a newly drawn identifier; flash is what the others made of it meanwhile. |
| Deployment.Workflows.Enter | src/jlink_mcp/service.py:294-298 | Opening a lease block continues the task's own lease without waiting or acquires one, and logs which. |
| Deployment.Workflows.Leave | src/jlink_mcp/leases.py:50-56 | Closing a block that acquired ends its lease and leaves the probe's lock free; closing a nested one changes nothing. |
| Deployment.Workflows.Write | extensions/arduino_giga/src/jlink_mcp_arduino_giga/workflows.py:352-362 | One command is one block: what it leaves in flash, and its whole effect on tables and flash, as logged. |
| Deployment.Workflows.Backup | extensions/arduino_giga/src/jlink_mcp_arduino_giga/workflows.py:398-424 | A backup is returned exactly when the probe is leased and no fault comes in; it is on disk, is the content of flash, and carries its digest; flash is what the block found. |
| Deployment.Workflows.FlashAndVerify | extensions/arduino_giga/src/jlink_mcp_arduino_giga/workflows.py:339-368 | Reports success exactly when the probe is leased and no fault comes in, and then flash is the file loaded over what the block found. |
| Deployment.Workflows.RestoreBackup | extensions/arduino_giga/src/jlink_mcp_arduino_giga/workflows.py:1072-1099 | Without a 64-digit digest that matches the file nothing happens; a verified restoration means that flash holds the file; under a lease authorization without faults always gets there, and without one the two commands lease the probe one after the other. |
| Deployment.Workflows.Stage | extensions/giga_protocol_bridge/src/jlink_mcp_giga_protocol_bridge/workflows.py:118-144 | Whatever staging leaves in place has the authorized digest; it succeeds exactly when the staged or copied content has it. |
| Deployment.Workflows.Admit | extensions/giga_protocol_bridge/src/jlink_mcp_giga_protocol_bridge/workflows.py:339-375 | A deployment reaches its lease exactly when source digest, HEX digest and SHA256SUMS are in order, what is staged has the digest, and the preflight reports success. |
| Deployment.Workflows.FlashAndShake | extensions/giga_protocol_bridge/src/jlink_mcp_giga_protocol_bridge/workflows.py:389-408 | The guarded part succeeds exactly without faults and with a matching handshake, and then flash holds the release. |
| Deployment.Workflows.Recover | extensions/giga_protocol_bridge/src/jlink_mcp_giga_protocol_bridge/workflows.py:410-422 | The restoration is verified exactly when the backup file still has the digest and no fault comes in, and then flash holds it. |
| Deployment.Workflows.Transact | extensions/giga_protocol_bridge/src/jlink_mcp_giga_protocol_bridge/workflows.py:382-438 | Inside the lease: backup first, then flash and handshake, or restore; the task's lease is kept whatever the others do, and every probe command runs under it. |
| Deployment.Workflows.LeaseAndTransact | extensions/giga_protocol_bridge/src/jlink_mcp_giga_protocol_bridge/workflows.py:377-438 | The lease block as a whole: its log is one opening, the body under that one lease, and one closing, or the attempt that gave up. |
| Deployment.Workflows.DeployProtocolBridge | extensions/giga_protocol_bridge/src/jlink_mcp_giga_protocol_bridge/workflows.py:332-438 | With a fault possible at every step and other tasks running at every wait: the lease tables and flash end as the log says, which is one lease, opened once and freed, around every flash command, with none before a successful backup. It ends with flash as found, or the release with a matching handshake, or the original verified, or an error whose backup digest authorizes a restoration; it is refused, with nothing leased or flashed, unless the release is authorized and in order, and which end is reached is determined exactly by the faults. |

## Left out

- Subprocess, USB, serial, socket, file and SQLite input and output: their results are parameters, and the audit table is a sequence of rows.
- JSON, UTF-8 and base64: an audit payload and a lease owner are strings, a response body is octets.
- `encode_request_body`, `decode_response_body` and the typed requests: finite lookup tables over the typed bodies modelled here.
- `TlvReader` accessors of fixed width (`getU8` to `bytes`): `find` with a length test.
- The firmware's `dispatch` and protocol handlers: a dispatched request and an error reply are events of the link model.
- `size_t` is a natural number in the firmware models: no operation modelled comes near its bound. The 16- and 32-bit fields and the 32-bit overflow counter keep their widths.
- The transport below the frames: corruption is any change within four consecutive covered octets or within the checksum field; a change spanning the checksum field and its neighbours is not covered.
- Two messages of one id, type and segment count: their frames cannot be told apart by reassembly, so mixing them is not covered.
- ExtensionLoader.ExtensionContext.Contribute: does not model a server library that lets an exception other than `Exception` out of installing a tool or resource, because the name left behind then belongs to a load that is not rolled back either.
- ExtensionLoader.ExtensionManager.Load: does not model the MCP server's own tool and resource tables, because which of its interfaces removes an entry depends on the server library, nor the configuration file and environment overrides (only whether a configuration validates), or discovery and contract checks, which only read the environment.
- ExtensionLoader.ExtensionManager.Shutdown: does not model what shutdown hooks do, because they are foreign code; a hook returns, raises or lets something escape.
- ExtensionLoader.ExtensionContext.RunScript: does not model an extension that changes the registry other than through its context, because nothing undoes that, or one that goes on by the value of a service rather than by whether it is there, because that only chooses among the scripts covered.
- Dependencies.TopologicalOrder: does not fix which of several valid orders is returned, because clients rely only on the order being valid and on an already valid order being kept.
- Time, fairness and wake-up order of waiting tasks, and cancellation inside `release`: a timeout is a step that can always happen to a waiting task, and eventual release is not claimed.
- Deployment.Workflows.Admit: does not model what `hardware_preflight` does to the target under leases of its own, only its verdict, because it touches no flash.
- Deployment.Workflows.DeployProtocolBridge: does not model parsing SHA256SUMS, hashing the source tree, or ELF and HEX formats, because they are input formats; a HEX file acts on flash through a parameter. The staged file and the backup file may change before they are used, but the backup not between its digest check and its use.
- Concurrent writers of the audit table in other processes: appends are atomic.
- `PinResources`, `BridgeResourceManager`, the RTT ring writer, discovery, capability merging and reports: small cases or data assembly that the results above exceed.
