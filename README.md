# jooby-codec command codecs in Dafny

This project models four per-command body codecs of the jooby-codec protocol
stack, each with a small cursor-based byte buffer under it, and proves their
byte layouts, their error cases and their round trips.

- **mtx uplink 0x0f `GetEnergyCurrentResponse`**: four tariff energy readings
  as big-endian uint32 values in a fixed 16-byte body. `toBytes` writes the
  header `[0x0f, 0x10]` itself and returns 18 bytes.
- **mtx downlink 0x0f `GetEnergyCurrent`**: a request with one optional
  `energyType` byte. The body is one byte when `energyType` is truthy in the
  JavaScript sense and empty otherwise.
- **obis-observer uplink 0x2b `UpdateImageWriteResponse`**: a two-byte body,
  `requestId` and then `resultCode`.
- **analog uplink 0x0c `correctTime2000`**: a one-byte `status` body. Its
  decoder checks the length, reads, and then checks that the buffer is empty.

Module layout:

- `Wrappers` (`wrappers.dfy`): `Result`, `Outcome` and `Option`, and the error
  kinds (`BufferOverrun`, `BufferOverflow`, `WrongBufferSize`, `BufferNotEmpty`).
- `Bytes` (`bytes.dfy`): `byte`, `uint32`, and the big-endian 32-bit layout.
- `Buffer` (`buffer.dfy`): the energies group (four tariffs) and the class
  `CommandBuffer`. It holds an `array<byte>` and a cursor, and offers
  `getUint8`/`setUint8`, big-endian `getUint32`/`setUint32`,
  `getEnergies`/`setEnergies` and `isEmpty`. The real `BinaryBuffer` and
  `CommandBinaryBuffer` are not part of this model. This class is the smallest
  buffer the four commands need. A read past the end gives `BufferOverrun`. A
  write past the capacity gives `BufferOverflow`.
- One module per command file. For `GetEnergyCurrentResponse`,
  `UpdateImageWriteResponse` and `correctTime2000`, the `FromBytes` and
  `ToBytes` methods work through the buffer, as the source does. Each is
  proved equal to a specification function, `Decode` or `Encode`.
- `GetEnergyCurrent` uses no buffer. Its `fromBytes` is a plain conditional in
  the source, so `FromBytes` is itself a function and there is no `Decode`.
  Its `ToBytes` method builds a sequence and conditionally appends to it, as
  the source builds and pushes onto an array. It is proved equal to `Encode`.
- The lemmas about these functions state the round trips and the edge cases.

Command instances are datatypes. The `size` that each constructor computes
is the member function `Size()`, a function of the parameters.

Where the code differs from the general command contract, the model follows
the code. In that contract `decode` rejects bodies outside `[min, max]` and
bodies with trailing bytes. `GetEnergyCurrentResponse.fromBytes` and
`UpdateImageWriteResponse.fromBytes` check neither: a short body overruns the
buffer, and trailing bytes are ignored. `GetEnergyCurrent.fromBytes` never
fails: any body whose length is not 1 decodes as "no `energyType`". Only
`correctTime2000` checks the length and that the buffer is exhausted.

## Model

| member | source | states |
|---|---|---|
| `Bytes.BytesToUint32` | src/mtx/commands/uplink/GetEnergyCurrentResponse.ts:19-21 | four bytes read as a uint32 are big-endian: the first byte weighs 2^24, the last 1 |
| `Bytes.Uint32RoundTrip` | src/mtx/commands/uplink/GetEnergyCurrentResponse.ts:19-21 | reading back the four big-endian bytes of any uint32 gives that value |
| `Bytes.BytesRoundTrip` | src/mtx/commands/uplink/GetEnergyCurrentResponse.ts:19-21 | writing the value of any four bytes gives the same four bytes |
| `Buffer.EnergiesLayout` | src/mtx/commands/uplink/GetEnergyCurrentResponse.ts:19-21 | bytes 4k..4k+3 of an energy group are tariff k, big-endian, for k = 0..3 |
| `Buffer.EnergiesRoundTrip` | src/mtx/commands/uplink/GetEnergyCurrentResponse.ts:72-85 | reading an energy group back gives the four readings written |
| `Buffer.EnergyBytesRoundTrip` | src/mtx/commands/uplink/GetEnergyCurrentResponse.ts:72-85 | writing the four readings of a 16-byte group gives the same 16 bytes |
| `Buffer.CommandBuffer.Wrap` | src/obis-observer/commands/uplink/UpdateImageWriteResponse.ts:69 | a decode-mode buffer holds exactly the given bytes, with the cursor at 0 |
| `Buffer.CommandBuffer.Allocate` | src/obis-observer/commands/uplink/UpdateImageWriteResponse.ts:79 | an encode-mode buffer has the given capacity, is zero-filled, and has the cursor at 0 |
| `Buffer.CommandBuffer.Contents` | src/mtx/commands/uplink/GetEnergyCurrentResponse.ts:87 | `toUint8Array()` (and `buffer.data`) gives every byte of the owned region, in order |
| `Buffer.CommandBuffer.IsEmpty` | src/analog/commands/uplink/correctTime2000.ts:56 | the buffer is empty exactly when the cursor is at the end of the region |
| `Buffer.CommandBuffer.GetUint8` | src/obis-observer/commands/uplink/UpdateImageWriteResponse.ts:72-73 | returns the byte under the cursor and advances by one; at the end it fails with an overrun and leaves the cursor |
| `Buffer.CommandBuffer.SetUint8` | src/obis-observer/commands/uplink/UpdateImageWriteResponse.ts:82-83 | writes the byte under the cursor, changes nothing else, and advances by one; when full it fails with an overflow and changes nothing |
| `Buffer.CommandBuffer.GetUint32` | src/mtx/commands/uplink/GetEnergyCurrentResponse.ts:72 | returns the big-endian value of the next four bytes and advances by four; with fewer than four left it fails with an overrun |
| `Buffer.CommandBuffer.SetUint32` | src/mtx/commands/uplink/GetEnergyCurrentResponse.ts:85 | replaces the next four bytes by the big-endian value and nothing else, and advances by four; otherwise it fails with an overflow and changes nothing |
| `Buffer.CommandBuffer.GetEnergies` | src/mtx/commands/uplink/GetEnergyCurrentResponse.ts:72 | reads the next 16 bytes as the four tariffs in order and advances by 16; with fewer left it fails with an overrun |
| `Buffer.CommandBuffer.SetEnergies` | src/mtx/commands/uplink/GetEnergyCurrentResponse.ts:85 | replaces the next 16 bytes by the four tariffs in order and nothing else, and advances by 16; otherwise it fails with an overflow |
| `MtxGetEnergyCurrentResponse.GetEnergyCurrentResponse.Size` | src/mtx/commands/uplink/GetEnergyCurrentResponse.ts:51 | the size the constructor sets is the declared maxSize, 16, whatever the parameters, and fits the size byte |
| `MtxGetEnergyCurrentResponse.Decode` | src/mtx/commands/uplink/GetEnergyCurrentResponse.ts:69-73 | succeeds exactly when the body has at least 16 bytes, and then energy k is the big-endian value of body bytes 4k..4k+3; otherwise a buffer overrun |
| `MtxGetEnergyCurrentResponse.Encode` | src/mtx/commands/uplink/GetEnergyCurrentResponse.ts:76-88 | 18 bytes; byte 0 is 0x0f and byte 1 is 16, the body size and the declared maxSize; bytes 2+4k..5+4k are energy k, big-endian |
| `MtxGetEnergyCurrentResponse.FromBytes` | src/mtx/commands/uplink/GetEnergyCurrentResponse.ts:69-73 | reading through a buffer over the body computes exactly `Decode` |
| `MtxGetEnergyCurrentResponse.ToBytes` | src/mtx/commands/uplink/GetEnergyCurrentResponse.ts:76-88 | writing id, size and energies into an 18-byte buffer produces exactly `Encode` |
| `MtxGetEnergyCurrentResponse.DecodeEncode` | src/mtx/commands/uplink/GetEnergyCurrentResponse.ts:69-88 | for any four uint32 readings, decoding the body of the encoding returns the same command |
| `MtxGetEnergyCurrentResponse.EncodeDecode` | src/mtx/commands/uplink/GetEnergyCurrentResponse.ts:69-88 | every 16-byte body decodes, and re-encoding gives back the same body |
| `MtxGetEnergyCurrentResponse.DecodeIgnoresTrailing` | src/mtx/commands/uplink/GetEnergyCurrentResponse.ts:69-72 | bytes after the 16th never change what is decoded |
| `MtxGetEnergyCurrentResponse.ExampleEncode` | src/mtx/commands/uplink/GetEnergyCurrentResponse.ts:15-23 | `[40301230, 3334244, 2333, 2145623]` encodes to `0f 10 02 66 f2 ae 00 32 e0 64 00 00 09 1d 00 20 bd 57` |
| `MtxGetEnergyCurrentResponse.ExampleDecode` | src/mtx/commands/uplink/GetEnergyCurrentResponse.ts:35-42 | the body `02 66 f2 ae 00 32 e0 64 00 00 09 1d 00 20 bd 57` decodes to `[40301230, 3334244, 2333, 2145623]` |
| `MtxGetEnergyCurrent.GetEnergyCurrent.Size` | src/mtx/commands/downlink/GetEnergyCurrent.ts:53 | the size is 1 exactly when `energyType` is present and non-zero, and 0 otherwise |
| `MtxGetEnergyCurrent.FromBytes` | src/mtx/commands/downlink/GetEnergyCurrent.ts:71-79 | a one-byte body gives that byte as `energyType`; a body of any other length does not fail and gives no `energyType` |
| `MtxGetEnergyCurrent.Encode` | src/mtx/commands/downlink/GetEnergyCurrent.ts:82-91 | `[0x0f, size]`, then `energyType` exactly when it is truthy; the length is 2 + size and byte 1 is the body length |
| `MtxGetEnergyCurrent.ToBytes` | src/mtx/commands/downlink/GetEnergyCurrent.ts:82-91 | building the header and conditionally pushing the byte produces exactly `Encode` |
| `MtxGetEnergyCurrent.DecodeEncode` | src/mtx/commands/downlink/GetEnergyCurrent.ts:53-91 | decoding the body of the encoding returns the same command if and only if `energyType` is not 0 |
| `MtxGetEnergyCurrent.EncodeDecode` | src/mtx/commands/downlink/GetEnergyCurrent.ts:71-91 | re-encoding a decoded body gives the same body if and only if it is empty or a single non-zero byte |
| `MtxGetEnergyCurrent.ZeroEnergyTypeLost` | src/mtx/commands/downlink/GetEnergyCurrent.ts:74-88 | `fromBytes([0x00])` gives `energyType` 0, which encodes to `[0x0f, 0x00]` and decodes back to no `energyType` |
| `MtxGetEnergyCurrent.Examples` | src/mtx/commands/downlink/GetEnergyCurrent.ts:19-28 | no `energyType` encodes to `0f 00` and `energyType` 1 to `0f 01 01`; those bodies decode back |
| `ObisUpdateImageWriteResponse.UpdateImageWriteResponse.Size` | src/obis-observer/commands/uplink/UpdateImageWriteResponse.ts:54 | the size the constructor sets is `1 + REQUEST_ID_SIZE` = 2, whatever the parameters |
| `ObisUpdateImageWriteResponse.Decode` | src/obis-observer/commands/uplink/UpdateImageWriteResponse.ts:68-75 | succeeds exactly when the body has at least 2 bytes, giving `requestId` = byte 0 and `resultCode` = byte 1; otherwise a buffer overrun |
| `ObisUpdateImageWriteResponse.Encode` | src/obis-observer/commands/uplink/UpdateImageWriteResponse.ts:78-86 | hands id 0x2b and a body of exactly `COMMAND_SIZE` = 2 bytes, `[requestId, resultCode]`, to `Command.toBytes` |
| `ObisUpdateImageWriteResponse.FromBytes` | src/obis-observer/commands/uplink/UpdateImageWriteResponse.ts:68-75 | two `getUint8` reads through a buffer compute exactly `Decode` |
| `ObisUpdateImageWriteResponse.ToBytes` | src/obis-observer/commands/uplink/UpdateImageWriteResponse.ts:78-86 | two `setUint8` writes into a 2-byte buffer produce exactly `Encode` |
| `ObisUpdateImageWriteResponse.DecodeEncode` | src/obis-observer/commands/uplink/UpdateImageWriteResponse.ts:68-86 | for any `requestId` and `resultCode` in 0..255, decoding the encoded body returns the same command |
| `ObisUpdateImageWriteResponse.EncodeDecode` | src/obis-observer/commands/uplink/UpdateImageWriteResponse.ts:68-86 | every 2-byte body decodes, and re-encoding gives back the same body |
| `ObisUpdateImageWriteResponse.DecodeIgnoresTrailing` | src/obis-observer/commands/uplink/UpdateImageWriteResponse.ts:68-75 | bytes after the second never change what is decoded |
| `ObisUpdateImageWriteResponse.Example` | src/obis-observer/commands/uplink/UpdateImageWriteResponse.ts:18-46 | body `21 00` decodes to request 33 with result code 0, and that command encodes to id 0x2b with body `21 00` |
| `AnalogCorrectTime2000.CommandToBytes` | src/analog/commands/uplink/correctTime2000.ts:23-42 | the header is `[id, body length]`, and the body follows unchanged |
| `AnalogCorrectTime2000.Decode` | src/analog/commands/uplink/correctTime2000.ts:46-61 | succeeds exactly when the body is 1 byte long, giving that byte as `status`; any other length is "wrong buffer size" with that length |
| `AnalogCorrectTime2000.Encode` | src/analog/commands/uplink/correctTime2000.ts:64-71 | `[0x0c, 0x01, status]`, of length `headerSize + COMMAND_BODY_SIZE` = 3 |
| `AnalogCorrectTime2000.FromBytes` | src/analog/commands/uplink/correctTime2000.ts:46-61 | the length check, one buffer read and the exhaustion check compute exactly `Decode`; the "not empty" error is never returned |
| `AnalogCorrectTime2000.ToBytes` | src/analog/commands/uplink/correctTime2000.ts:64-71 | writing the status into a 1-byte buffer and prepending the header produces exactly `Encode` |
| `AnalogCorrectTime2000.DecodeEncode` | src/analog/commands/uplink/correctTime2000.ts:46-71 | for any status in 0..255, decoding the body of the encoding returns the same parameters |
| `AnalogCorrectTime2000.EncodeDecode` | src/analog/commands/uplink/correctTime2000.ts:46-71 | for any accepted body, re-encoding the decoded parameters gives back the same body |
| `AnalogCorrectTime2000.Examples` | src/analog/commands/uplink/correctTime2000.ts:23-42 | status 0 encodes to `0c 01 00` and status 1 to `0c 01 01`; those bodies decode back |

## Left out

- `src/analog/frame.ts` (frame and message glue): the frame codec, the message codec and the hex/base64 helpers it calls are not part of this model, so its one local rule ("strict and invalid frame gives no commands") cannot be stated against them.
- Framing, checksums, byte-stuffing, message splitting, the command registry and dispatch: none of that code is part of this model.
- ObisUpdateImageWriteResponse.ToBytes: the obis-observer `Command.toBytes` is not part of this model, so the header it adds is not modelled. The result is the `(id, body)` pair handed to it.
- AnalogCorrectTime2000.CommandToBytes: models only the one-byte-id header that the command examples show. The analog `command.toBytes` for other ids is not part of this model.
- The real `BinaryBuffer` and `CommandBinaryBuffer` are not part of this model. The buffer here leaves out little-endian mode, the 16/24-bit and signed accessors, and bit-level access. An overrun or overflow is an error value, not an exception.
- Buffer.CommandBuffer.GetEnergies: on an overrun, the cursor position after the partial read is not stated, because the source throws and drops the buffer.
- Buffer.CommandBuffer.SetEnergies: on an overflow, the partially written bytes and the cursor are not stated, for the same reason.
- Command instances are treated as immutable. In the source, `parameters` is a public field and the constructor caches `size` (`src/mtx/commands/downlink/GetEnergyCurrent.ts:53`), while `toBytes` re-reads `energyType` when called (lines 83-88). Changing `parameters` after construction can therefore make the cached `size` stale, so that the header contradicts the body. The model computes `Size()` from the current parameters and does not capture that case.
- The `TEnergyType` domain is defined elsewhere, so `energyType` is any byte.
- Writes of out-of-range numbers (above 255, or 2^32 and above) are excluded by the parameter types `byte` and `uint32`.
- Documentation-only metadata (`examples` names, `accessLevel`, `hasParameters`, `directionType`) is left out. The examples appear only as example lemmas.
- The usage comment at `src/mtx/commands/downlink/GetEnergyCurrent.ts:40-44` says `new GetEnergyCurrent()` prints `0f 01`. That contradicts the size rule at line 53 and the example at line 22, so it is not modelled.
