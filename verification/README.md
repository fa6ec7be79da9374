# miniproto frame codec in Dafny

A model of the frame codec of miniproto, a teaching tool for layered
encapsulation. The codec is in `app/common.js`. It serialises a link, a
network, a transport and an application header, followed by a payload,
into one byte buffer. The buffer carries two integrity fields:

- a 16-bit ones-complement checksum over a transport pseudo-header and the
  payload;
- a CRC-16 frame check sequence (FCS) over every other byte of the frame.

The decoder reads the buffer back, recomputes both integrity values and
compares the declared payload length with the payload it finds. The model
also covers the pure steps of the sender page, `app/emisor.js`:

- the automatic broadcast and multicast destinations;
- how `encapsulate` assembles the headers and computes the transport
  checksum;
- the one-bit error the page can inject.

Modules, one per concern:

| module | file | models |
|---|---|---|
| `Optional` | `optional.dfy` | `Option`, for the `NaN` of `parseInt` and the `null` of `autoDst` |
| `Bits` | `bits.dfy` | `^`, `<<`, `&` on non-negative numbers, and integer arithmetic facts |
| `Bytes` | `bytes.dfy` | bytes, big-endian values, JavaScript's 32-bit conversion, `numToBytes`, `concatBytes` |
| `Text` | `text.dfy` | `parseInt`, `split`/`join`, `trim`, `toString(16)`/`padStart`, `toUpperCase` |
| `Hex` | `hex.dfy` | `toHex`, `hexToBytes` |
| `Addresses` | `addresses.dfy` | `ipToBytes`, `macToBytes`, and the dotted and colon text forms of addresses |
| `Checksum` | `checksum.dfy` | `checksum16` |
| `Crc` | `crc.dfy` | `crc16` |
| `Frame` | `frame.dfy` | `buildFrame`, `validateFrame` (with `Decoded`, a decoded buffer or the reason it cannot be decoded) |
| `Emisor` | `emisor.dfy` | `autoDst`, header assembly in `encapsulate`, `introduceError` |

Numbers are unbounded integers. Where JavaScript's 32-bit operators can
wrap, the model wraps explicitly:

- `numToBytes` converts to a signed 32-bit value first (`ToInt32`);
- the decoder's `(b << 24) + …` is a signed 32-bit reading (`SignedBE32`).

The decoder can read past the end of a buffer. In the source such a read
gives `undefined`, and the declared length built from it is `NaN`. For a
buffer under 42 bytes the transport checksum is `NaN` too. So `ok` is false,
but the other fields still hold whatever could be read. The model returns
a distinct `Malformation` and no fields instead: `TooShort`,
`MissingTerminator` or `TruncatedLength`.

Three behaviours of the code shape the model:

- **Signed length.** The sender writes the declared length from a
  non-negative byte count. The decoder reads it back as a signed 32-bit
  number (`(b << 24) + …`). So a payload of 2^31 bytes or more never
  validates.
- **Missing terminator.** When the content type has no NUL after it, the
  decoder's scan runs to the end of the buffer. The length read after it
  gives `NaN`, nothing is thrown, and `ok` is false. The addresses, ports
  and content type are still returned, with an empty payload.
- **Transport checksum.** `buildFrame` writes `transHeader.checksum` as it
  is given. The value is computed in `encapsulate` in `emisor.js`, over the
  pseudo-header and the payload.

## Model

| member | source | states |
|---|---|---|
| Hex.ToHexLayout | miniproto/miniproto/app/common.js:1 | `toHex` writes each byte as two lower-case hex digits, and separates neighbouring bytes with one space; n bytes give 3n-1 characters |
| Hex.StripSpaces | miniproto/miniproto/app/common.js:2 | removing `\s+` leaves no white space and never lengthens the text; a text without white space is kept as it is, and a single character disappears exactly when it is white space |
| Hex.StripSpacesAppend | miniproto/miniproto/app/common.js:2 | stripping a concatenation is the concatenation of the stripped parts, so the kept characters stay in their order |
| Hex.HexToBytes | miniproto/miniproto/app/common.js:2 | one byte per two hex digits left after white space is removed |
| Hex.HexRoundTrip | miniproto/miniproto/app/common.js:1-2 | `hexToBytes(toHex(b)) == b` for every byte sequence |
| Bytes.ToInt32 | miniproto/miniproto/app/common.js:4 | the 32-bit signed conversion before `&` and `>>` lies in [-2^31, 2^31) and is congruent to its input modulo 2^32 |
| Bytes.NumToBytes | miniproto/miniproto/app/common.js:4 | `numToBytes(num, size)` returns exactly `size` bytes |
| Bytes.BEValueOfNumToBytes | miniproto/miniproto/app/common.js:4 | the bytes are the big-endian digits of `num mod 256^size`, silently truncated, for `size <= 4` or a non-negative 32-bit `num` |
| Bytes.NumToBytesOfBEValue | miniproto/miniproto/app/common.js:4 | writing back a value read from up to four bytes reproduces those bytes |
| Bytes.SignedBE32OfNumToBytes | miniproto/miniproto/app/common.js:4 | four bytes written from a signed 32-bit number read back, the way the decoder reads `len`, as that number |
| Bytes.SignedBE32OfAnyNumToBytes | miniproto/miniproto/app/common.js:4 | for any number, the signed reading of its four bytes is its 32-bit conversion |
| Bytes.NumToBytes4Digits | miniproto/miniproto/app/common.js:4 | the four bytes are `(v >> 24) & 0xff`, `(v >> 16) & 0xff`, `(v >> 8) & 0xff`, `v & 0xff`, as the decoder's pseudo-header computes them |
| Bytes.Concat | miniproto/miniproto/app/common.js:7 | the output length is the sum of the input lengths |
| Bytes.ConcatIndex | miniproto/miniproto/app/common.js:7 | byte `j` of input `k` sits at offset (length of inputs before `k`) + `j`, so the contents are the inputs in order |
| Text.Split | miniproto/miniproto/app/common.js:5 | `split` gives at least one piece, and no piece contains the separator |
| Text.JoinSplit | miniproto/miniproto/app/common.js:5 | joining the pieces of a split restores the text |
| Text.SplitJoin | miniproto/miniproto/app/common.js:5 | splitting a join of separator-free pieces restores the pieces |
| Text.ParseDecimal | miniproto/miniproto/app/common.js:5 | `parseInt(n.toString(), 10) == n` for every natural `n` below 10^21, where `toString` writes every digit; in particular for every byte that `join('.')` renders |
| Text.ParseUpperHex2 | miniproto/miniproto/app/common.js:6 | `parseInt` in radix 16 of a byte's two upper-case hex digits is that byte, and the `Uint8Array` store keeps it |
| Addresses.IpToBytes | miniproto/miniproto/app/common.js:5 | one byte per dot-separated component |
| Addresses.MacToBytes | miniproto/miniproto/app/common.js:6 | one byte per colon-separated component |
| Addresses.IpRoundTrip | miniproto/miniproto/app/common.js:5 | `ipToBytes` of the dotted-decimal text the decoder reports (`join('.')`) gives back the address bytes |
| Addresses.MacRoundTrip | miniproto/miniproto/app/common.js:6 | `macToBytes` of the colon-separated upper-case hex text gives back the address bytes |
| Checksum.Fold | miniproto/miniproto/app/common.js:8 | one end-around-carry fold of a 16-bit sum and a 16-bit word stays within 16 bits |
| Checksum.ComputeChecksum16 | miniproto/miniproto/app/common.js:8 | the loop as written: the running sum stays within 16 bits after every fold, and the result is the 16-bit complement of the end-around-carry sum of all words |
| Checksum.Checksum16 | miniproto/miniproto/app/common.js:8 | the checksum lies in [0, 0xFFFF] |
| Checksum.ChecksumClosedForm | miniproto/miniproto/app/common.js:8 | folding word by word gives the ones-complement of the end-around-carry sum of all words, the definition in section 1 of RFC 1071 |
| Checksum.ChecksumOddPadding | miniproto/miniproto/app/common.js:8 | an odd-length input has the same checksum as that input with a 0x00 byte appended |
| Checksum.ChecksumDetectsByteChange | miniproto/miniproto/app/common.js:8 | two inputs of the same length that differ in exactly one byte have different checksums |
| Crc.Shift | miniproto/miniproto/app/common.js:9 | one pass of the inner loop leaves a 16-bit register |
| Crc.ComputeCrc16 | miniproto/miniproto/app/common.js:9 | the loops as written: the register stays within 16 bits, and the result is the byte-by-byte fold from the preset 0xFFFF |
| Crc.Crc16 | miniproto/miniproto/app/common.js:9 | the CRC is below 2^16, and the empty input gives 0xFFFF |
| Crc.ShiftInjective | miniproto/miniproto/app/common.js:9 | one shift-and-XOR pass maps distinct 16-bit registers to distinct registers |
| Crc.CrcFromAppend | miniproto/miniproto/app/common.js:9 | the CRC of `a + b` continues from the register left after `a` |
| Crc.CrcDetectsByteChange | miniproto/miniproto/app/common.js:9 | two inputs of the same length that differ in exactly one byte have different CRCs |
| Frame.FlagsByte | miniproto/miniproto/app/common.js:14 | the flags byte is below 8; bit 0 is set iff SYN, bit 1 iff ACK, bit 2 iff FIN |
| Frame.BuildFrameSplice | miniproto/miniproto/app/common.js:18-21 | bytes 14-15 (right after the link header) hold the big-endian CRC-16 of the frame without them; the rest is link ‖ net ‖ trans ‖ app ‖ payload in that order |
| Frame.BuildFrameLength | miniproto/miniproto/app/common.js:10-21 | with well-formed addresses the frame is 16 + 11 + 15 + (content type + 1 + 4) + payload bytes long |
| Frame.PseudoHeader | miniproto/miniproto/app/emisor.js:80-87 | the pseudo-header is 14 bytes; byte 12 is the flags byte and byte 13 is zero |
| Frame.FindNul | miniproto/miniproto/app/common.js:32 | the scan stops at the first NUL at or after its start, or at the end of the buffer |
| Frame.DecodeFrame | miniproto/miniproto/app/common.js:24-34 | on success, the content type is the bytes from offset 42 up to the first NUL, and the payload is everything after the following 4-byte length; `TooShort` iff the buffer has under 42 bytes; `MissingTerminator` iff there is no NUL from offset 42 on |
| Frame.DecodeBuildFrame | miniproto/miniproto/app/common.js:10-34 | decoding a built frame with well-formed addresses and a NUL-free content type gives back every field the sender wrote, each reduced to its width |
| Frame.PseudoHeadersAgree | miniproto/miniproto/app/common.js:35-36 | the pseudo-header the decoder rebuilds from the parsed fields is byte for byte the one the sender checksummed |
| Frame.RecomputedCoverage | miniproto/miniproto/app/common.js:38-40 | the bytes the decoder runs the CRC over for a built frame are exactly the bytes the encoder covered |
| Frame.ValidateBuildFrame | miniproto/miniproto/app/common.js:23-43 | a built frame decodes, and reports the sender's content type and payload, the addresses in their re-rendered dotted form (`010.1.1.1` comes back as `10.1.1.1`) and the ports modulo 2^16 (exact equality is `FrameRoundTrip`); it is accepted iff the stored transport checksum matches and the signed length equals the payload length; the FCS always matches |
| Frame.LengthMismatchRejected | miniproto/miniproto/app/common.js:41 | a declared length that the 4-byte field holds without wrapping (from -2^31 up to 2^32 - 1) and that differs from the payload length makes `ok` false; one with bit 31 set reads back negative |
| Frame.FrameRoundTrip | miniproto/miniproto/app/common.js:10-43 | with canonical addresses, ports below 2^16, a NUL-free content type, the declared length set to the payload length (below 2^31) and the transport checksum computed, the frame is accepted and every reported field equals the input |
| Frame.DecodedLink | miniproto/miniproto/app/common.js:38 | the link header the decoder rebuilds (`linkNoFcs`) is the first 14 bytes of the buffer, and the stored FCS is bytes 14-15 |
| Frame.AcceptedFcs | miniproto/miniproto/app/common.js:38-41 | an accepted frame stores, big-endian at offset 14, the CRC-16 of all its other bytes |
| Frame.FcsDetects | miniproto/miniproto/app/common.js:38-41 | changing one byte breaks the agreement between the FCS and the bytes it covers, whether the byte is in the FCS or not |
| Frame.SingleByteChangeRejected | miniproto/miniproto/app/common.js:38-41 | any frame that differs from an accepted frame in exactly one byte is rejected |
| Emisor.AutoDst | miniproto/miniproto/app/emisor.js:32-41 | a destination exists exactly for the `broadcast` and `multicast` types; `null` (None) otherwise |
| Emisor.BroadcastDestination | miniproto/miniproto/app/emisor.js:33 | broadcast goes to 255.255.255.255 and FF:FF:FF:FF:FF:FF, which parse to four and six 0xFF bytes |
| Emisor.GroupOctets | miniproto/miniproto/app/emisor.js:35-36 | `'239.1.1.1'.split('.').map(n => parseInt(n, 10))` is 239, 1, 1, 1 |
| Emisor.Low23 | miniproto/miniproto/app/emisor.js:37 | three bytes whose big-endian value is the group address modulo 2^23 |
| Emisor.Low23Bytes | miniproto/miniproto/app/emisor.js:37 | the low 23 bits of a group are its second octet `& 0x7F` followed by its last two octets |
| Emisor.GroupMacFormat | miniproto/miniproto/app/emisor.js:37 | for every group, the upper-cased template text is the colon-hex form of `01:00:5E` followed by the group's low 23 bits (section 6.4 of RFC 1112) |
| Emisor.MulticastDestination | miniproto/miniproto/app/emisor.js:34-38 | multicast goes to 239.1.1.1, inside 224.0.0.0/4; its MAC `01:00:5E:01:01:01` parses to the RFC 1112 mapping of that group |
| Emisor.EncapsulateAccepted | miniproto/miniproto/app/emisor.js:58-95 | given well-formed addresses, a NUL-free content type and a payload under 2^31 bytes, the frame the sender builds is accepted: the declared length is the payload byte count and the transport checksum is the one the receiver recomputes. The receiver reports the sender's content type and payload, the ports modulo 2^16, and the addresses in their re-rendered dotted form (`010.1.1.1` comes back as `10.1.1.1`); exact equality with the form is `EncapsulateRoundTrip` |
| Emisor.EncapsulateRoundTrip | miniproto/miniproto/app/emisor.js:58-95 | given canonical address text and ports below 2^16, the receiver reports exactly the form's addresses and ports |
| Emisor.ErrorPosition | miniproto/miniproto/app/emisor.js:116 | `Math.max(20, draw)`: a draw below 20 gives 20, and any other draw is kept |
| Emisor.FlipLowBit | miniproto/miniproto/app/emisor.js:117 | `b ^ 0x01` toggles bit 0 and keeps the other bits |
| Emisor.IntroduceError | miniproto/miniproto/app/emisor.js:113-122 | the frame keeps its length and every byte but one; at that one position only the lowest bit changes |
| Emisor.IntroduceErrorTwice | miniproto/miniproto/app/emisor.js:117 | injecting the same error twice restores the frame |
| Emisor.ErrorDetected | miniproto/miniproto/app/emisor.js:116-117 | the flipped byte lies outside the FCS, and a frame that was accepted is rejected after the flip |

## Left out

- `stringToBytes` / `bytesToString` (UTF-8 via `TextEncoder`/`TextDecoder`): the content type is a byte sequence throughout. A NUL-free content type stands for any text whose encoding has no NUL.
- Math.random: the sequence number and the error-position draw are parameters of `Encapsulate` and `IntroduceError`.
- The payload source (`FileReader` for a chosen file, or the encoded text of the text box, defaulting to `Hola, Redes!`): the payload is a parameter.
- All DOM, logging and `current` state in `emisor.js`, plus `readSelectedFile`, `sendToLAN`, `resetAll` and the start-up autofill (`applyAutofill`, and `genLocalMac`, which draws a random locally administered MAC). `IntroduceError` takes the frame as an argument, so the "no frame yet" early return is not modelled.
- The MTU check in `encapsulate`: it only writes a log line.
- `receptor.js` and `server.js`: UI glue, persistence and WebSocket I/O. They call the codec but contain none of it.
- Strings are sequences of Unicode scalar values, whereas JavaScript's `length`, `substr` and `split` count UTF-16 code units. A text with a character outside the Basic Multilingual Plane therefore has a different length and pairing in `hexToBytes`, `ipToBytes` and `macToBytes`. For example, `hexToBytes("\u{1F600}ab")` is `[0, 0xAB]` in JavaScript, but one byte here.
- Text.Decimal: writes every digit. JavaScript's `toString` switches to exponent notation from 10^21 on (`(1e21).toString()` is `"1e+21"`). The codec renders only bytes, so no behaviour in the model depends on this.
- `parseInt` on digit strings too long for a double: the model reads them exactly, with no floating-point rounding.
- Text.ToUpper: it upper-cases ASCII letters only. The codec applies `toUpperCase()` only to hex digits and colons.
- Frame.ValidateFrame: for a buffer that cannot be decoded, the model returns a `Malformation` and no fields. JavaScript still returns `ok === false` together with the addresses, ports and content type it could read, and an empty payload. Only the declared length, and for a buffer under 42 bytes the transport checksum, is `NaN`; a buffer under 31 bytes also gives `NaN` ports.
- Frame.DecodeFrame: the decoded version nibble and the raw flags byte are not in the report, because `validateFrame` does not return them.
- Crc.Crc16: the CRC-16/CCITT-FALSE check value (0x29B1 for the ASCII text `123456789`) is not proved. Evaluating the bitwise XOR model on concrete bytes is beyond the verifier's resource budget. The loop, the bound, the preset and the error-detection properties are proved instead.
- Frame.FrameRoundTrip: the declared length must be below 2^31. `validateFrame` compares the signed 32-bit reading of the length, so a payload of 2^31 bytes or more is never accepted.
