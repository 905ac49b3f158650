# LZ65 in Dafny

LZ65 is a small byte codec for buffers of at most 256 bytes. `Compress` walks the
source buffer once. At each position it asks two match finders for a token:
`RunLengthAt` finds a run of one repeated byte (RLE), and `RepLengthAt` finds a
back-reference to an earlier copy of the bytes (REP). It keeps the longer of the
two, and the run on a tie. It merges consecutive one-byte literals into one RAW
token and ends the list with an EOS token. Then it writes each token's bytes with
`LzToken.EmitCompressStream`:
- a header byte `commandFlag | length`
- then the literal bytes (RAW), the repeated byte (RLE) or the position copied from (REP)

`Decompress` reads the stream back in two loops:
- a parse loop that turns every header byte into a token at that header's offset
- a replay loop that writes each token into a zeroed 256-byte buffer with `LzToken.WriteDecompressBuffer`

The model keeps the shape of the C# code. The compress loop, the two match
finders, the parse loop and the replay loop are Dafny methods with `while`
loops. `WriteDecompressBuffer` writes a Dafny `array` in place, byte by byte.
Each method is proved equal to a specification function, and the properties
are proved about those functions:
- `EncodeFrom` is the token loop
- `RepSearch` is the back-reference search
- `ParseFrom` is the parse loop
- `Apply` and `ReplayFrom` are the replay

Every C# cast to `byte` is written out with `ToByte`: the token constructor's
position and length, the merged RAW length, and the result of `Span.IndexOf`.
The masks `& 0xC0` and `& 0x3F` and the or into the header are modelled
exactly.

Modules, one per file:
- `Bytes` (bytes.dfy): the byte type, casts, masks and the header or.
- `Format` (format.dfy): the flags, masks, tokens and headers, and what it means for tokens to describe a buffer.
- `MatchFinder` (match_finder.dfy): `RunLengthAt`, `RepLengthAt` and `Span.IndexOf`.
- `Serializer` (serializer.dfy): `EmitCompressStream` and the parse loop of `Decompress`.
- `Encoder` (encoder.dfy): the token loop and the output loop of `Compress`.
- `Decoder` (decoder.dfy): `WriteDecompressBuffer` and the two loops of `Decompress`.
- `RoundTrip` (round_trip.dfy): what decompressing the output of `Compress` gives.
- `Capped` (capped.dfy): the token list `Compress` evidently means to build, with no token longer than 63 bytes, and its round trip.
- `Wide` (wide.dfy): the replay `Decompress` evidently means to do, with each header's offset kept as an int, and the round trips through it.
- `HeaderOffsets` (header_offsets.dfy): where the headers of an emitted stream fall, and two 256-byte buffers on either side of offset 256.

A codec should give back every buffer of up to 256 bytes that it compresses.
This code does not, and the model follows the code:
- A token of 64 bytes or more overflows the six length bits of its header (see Findings).
- The parse loop casts each header's offset to a byte, so a header at offset 256 or more is read at its offset mod 256. A RAW, RLE or REP token whose header lies there reads its payload from the front of the stream (see Findings), so it may read the wrong payload: the output is right only when those bytes happen to match. Only for the final EOS header is that offset always harmless, so a stream of up to 257 bytes is always read back right.

`RoundTrip.RoundTrip` therefore holds when every token fits in a header and every header but the last starts below offset 256 (`Serializer.HeadersBelow`).
`Capped.CappedRoundTrip` proves the round trip for the capped token list under the same header condition.
`Wide.CappedWideRoundTrip` proves it with both corrections and no condition at all.

## Model

| member | source | states |
|---|---|---|
| Bytes.ToByte | LZ65.cs:185-190 | The C# `(byte)` cast: values 0..255 are kept, 256 becomes 0, -1 becomes 255, and the result is congruent to the input modulo 256. |
| Bytes.HighBits | LZ65.cs:103 | `x & COM_MASK`: one of 0x00, 0x40, 0x80, 0xC0, and the largest such value not above `x`. |
| Bytes.LowBits | LZ65.cs:104 | `x & LEN_MASK`: below 64, and it adds up with the high bits to `x`. |
| Bytes.OrHigh | LZ65.cs:240 | `flag \| x` for a flag with clear low bits: it keeps the low six bits of `x`, and its high bits are the or of the flag's and `x`'s. |
| Format.Flag | LZ65.cs:5-8 | Each command's flag has clear low bits, and `Format.CommandOf` maps it back to that command. |
| Format.HeaderFields | LZ65.cs:240 | A header `Format.Header` whose length is at most 63 gives back its flag under `COM_MASK`, which `Format.CommandOf` maps to its command, and its length under `LEN_MASK`. |
| Format.HeaderOverflow | LZ65.cs:240 | A length of 64 or more comes back under `LEN_MASK` as its low six bits only, which is less than the length. |
| Format.HeaderCollisions | LZ65.cs:5-8 | `RLE_FLAG \| 64` is the EOS byte 0xC0, and `RAW_FLAG \| 64` is the header of a REP token of length 0. |
| Format.NewToken | LZ65.cs:185-190 | The `LzToken` constructor keeps the position and length when they fit in a byte, turns a length of 256 into 0, and keeps the command. Any other position or length, such as a header offset of 256 or more, becomes the byte congruent to it modulo 256. |
| MatchFinder.RunLength | LZ65.cs:133-138 | The run from `i` holds at least one byte, stays inside the buffer, holds only `s[i]`, and is followed by the end of the buffer or a different byte. |
| MatchFinder.RunToken | LZ65.cs:140-141 | A RAW token of length 1 exactly when the next byte differs or is missing. Otherwise an RLE token for the whole run, or `Token(0, 0, Rle)` when the run is 256 bytes long. |
| MatchFinder.RunLengthAt | LZ65.cs:131-142 | The counting loop returns `RunToken`. |
| MatchFinder.IndexOf | LZ65.cs:155 | `Span.IndexOf`: the first position of the pattern, or -1 when there is no copy. |
| MatchFinder.RepSearch | LZ65.cs:149-165 | The search loop as a function of its state: it ends on the state it starts from, or on a position before `idx` with a match longer than the starting slice that stays inside the buffer. It states bounds only: `SearchEnds` states that the bytes at the final position equal the bytes at `idx` and that the position is the first such one. |
| MatchFinder.SearchEnds | LZ65.cs:146-165 | From any state the search loop reaches, it ends on the first position of the kept slice before `idx`, and no copy of one more byte exists before `idx`. The loop's bound `length + matchIdx < srcData.Length` never stops it. |
| MatchFinder.RepToken | LZ65.cs:166-167 | The token is REP or RAW, and always RAW at position 0. |
| MatchFinder.RepTokenFound | LZ65.cs:144-168 | In a buffer of at most 256 bytes, a REP token copies at least two bytes from their first earlier position, and one more byte has no earlier copy. A RAW token means the two bytes at `idx` have no earlier copy. |
| MatchFinder.RepLengthAt | LZ65.cs:144-168 | The search loop, with the `(byte)` cast of `IndexOf`, returns `RepToken`. |
| Serializer.EmitAll | LZ65.cs:80-84 | The stream of a token list has at least one byte per token, and a list ending with EOS gives a stream ending with the EOS byte 0xC0. `ParseWire` proves that parsing undoes it. |
| Serializer.ParseFrom | LZ65.cs:100-122 | The parse loop from an offset, moving on by `Serializer.Step` after each header, makes at most one token per byte left, none past the end, and every length it reads fits in six bits. |
| Serializer.Parse | LZ65.cs:95-122 | The tokens read from the whole stream: at most one per byte, each with a length of at most 63. |
| Serializer.EmitCompressStream | LZ65.cs:238-259 | The bytes of a token: as many as the token's size, and the first is the header `commandFlag \| length`. |
| Serializer.ParseHead | LZ65.cs:100-121 | A header byte written for a token of length at most 63 is read back as that token's command and length, at the header's offset cast to a byte. The parse loop then moves just past the token's bytes. |
| Serializer.ParseWire | LZ65.cs:82-83 | Parsing undoes emitting: the bytes emitted for a list with lengths of at most 63 parse back to the same commands and lengths, each at its own header's offset. |
| Serializer.ShortHeadersBelow | LZ65.cs:100-105 | When the stream from an offset ends by byte 257, every header but the last starts below offset 256, so its byte-cast offset is exact. |
| Serializer.WireFields | LZ65.cs:103-105 | The tokens read back carry the commands and lengths of the tokens emitted, one for one. |
| Serializer.ParseEmitted | LZ65.cs:80-122 | The whole stream parses back to as many tokens as were emitted, with the same commands and lengths. |
| Encoder.Select | LZ65.cs:41-50 | The token picked at a position stands for the bytes there, and a RAW pick is one literal byte. For a run shorter than 256 bytes it is at least as long as both the run and the back-reference, and it is an RLE token exactly when the run has at least two bytes and is at least as long as the back-reference. A run of 256 bytes has its RLE length cast to 0, so the pick is the literal `Token(0, 1, Raw)` and the loop moves on. |
| Encoder.PicksStand | LZ65.cs:41-50 | Every pick stands for the bytes at its position, and a RAW pick is one literal byte. |
| Encoder.EncodeFrom | LZ65.cs:38-77 | The token loop as a function of its state: it adds at least one token. What the tokens mean is stated by `EncodeFromLaid` and `EncodeFromMerged`, and `TokenLoop` is proved to compute it. |
| Encoder.MergedWraps | LZ65.cs:53-63 | `Merged`, the RAW merge: a first literal becomes the pending token; a later one keeps the pending token's position and command and adds its length, which wraps to the sum minus 256 once the sum reaches 256. |
| Encoder.EncodeFromMerged | LZ65.cs:53-72 | The loop never leaves two RAW tokens in a row: every RAW pick is merged into the pending token, and the pending token is pushed only in front of a non-RAW pick or EOS. |
| Encoder.EncodeFromLaid | LZ65.cs:38-77 | From any state the token loop reaches, the tokens it adds describe the rest of the buffer. The one exception is a buffer of 256 literal bytes, whose merged RAW length wraps to 0. |
| Encoder.Tokenize | LZ65.cs:32-77 | The token list of `Compress` describes the buffer, or is that wrapped RAW list. Every token's payload exists, and no two RAW tokens follow one another. |
| Encoder.LaidShape | LZ65.cs:76-77 | The list ends with EOS, and when it describes the buffer its token lengths add up to the buffer's length. |
| Encoder.SelectAt | LZ65.cs:41-50 | Running both finders and keeping the longer gives the `Select` pick. |
| Encoder.TokenLoop | LZ65.cs:32-77 | The loop with its pending RAW accumulator returns `EncodeFrom` from the start. |
| Encoder.EmitLoop | LZ65.cs:80-84 | The output loop returns the tokens' bytes, one token after another. |
| Encoder.Compress | LZ65.cs:22-86 | `Compress` returns the bytes of `Tokenize(src)`. |
| Decoder.ParseLoop | LZ65.cs:95-122 | The parse loop with its `step` variable returns `Parse(c)`. |
| Decoder.Fill | LZ65.cs:199-205 | The RLE write sets `length` bytes from the cursor to the run's byte and leaves the rest of the buffer unchanged. |
| Decoder.Put | LZ65.cs:213-219 | The RAW write copies `length` stream bytes after the header to the cursor and leaves the rest of the buffer unchanged. |
| Decoder.CopyForward | LZ65.cs:206-212 | The REP copy changes only the target range. When the source is behind the target, each byte written equals the byte at its source in the result, so an overlapping copy repeats its pattern. When the source is at or after the target, each byte written is the source byte from before the copy. |
| Decoder.Apply | LZ65.cs:197-225 | Writing a token changes only the bytes from the cursor up to the cursor plus the bytes it writes. |
| Decoder.WriteDecompressBuffer | LZ65.cs:191-231 | The array afterwards is `Apply` of the array before, and the method returns the number of bytes written: the length, or 0 for EOS. |
| Decoder.ReplayFrom | LZ65.cs:127-128 | Replaying a list keeps every byte before the starting cursor, and the cursor moves forward by exactly the bytes the tokens write, within the buffer. |
| Decoder.ReplayAfter | LZ65.cs:127-128 | After one token is written, the rest of the list replays from the new cursor to the same result. |
| Decoder.ReplayLoop | LZ65.cs:124-129 | The replay loop over an array returns `ReplayFrom` of a zeroed buffer, cut at the final cursor. |
| Decoder.Decoded | LZ65.cs:125-129 | The output of `Decompress` is exactly as long as the parsed tokens write, EOS tokens writing nothing, and at most 256 bytes. |
| Decoder.Decompress | LZ65.cs:87-130 | `Decompress` returns `Decoded(c)`. |
| RoundTrip.CopyRestores | LZ65.cs:206-212 | A forward REP copy from an earlier position holding the same bytes restores the target range, even when the ranges overlap. |
| RoundTrip.CopyAt | LZ65.cs:206-212 | Each byte of an overlapping forward copy equals the source byte at that position, by induction on the position: a byte inside the target repeats the one `to - from` places earlier. |
| RoundTrip.WriteRestores | LZ65.cs:191-225 | A token read back from its own emitted bytes stays in bounds when written at its source position, and writes back exactly the source bytes it stands for. |
| RoundTrip.ReplayEmitted | LZ65.cs:124-129 | Replaying the tokens read back from a describing list stays in bounds, ends with the cursor at the buffer's length, and leaves the buffer in front of the destination, when every header but the last starts below offset 256. |
| RoundTrip.DecodeEmitted | LZ65.cs:87-130 | Decompressing the bytes emitted for a list that covers `s` gives back `s`, when every length is at most 63 and every header but the last starts below offset 256. |
| RoundTrip.RoundTrip | LZ65.cs:22-130 | `Decompress(Compress(s))` gives back `s` under those two conditions. The one exception is a 256-byte literal buffer, whose wrapped RAW token decompresses to nothing. |
| RoundTrip.WrapDecodesEmpty | LZ65.cs:61 | A 256-byte buffer compressed to a RAW token of length 0 and EOS is the stream `00 C0`, which decompresses to nothing. |
| RoundTrip.DistinctWraps | LZ65.cs:53-77 | A buffer of 256 distinct bytes picks a literal at every position. Its merged RAW token wraps to length 0, and decompressing the stream gives nothing. |
| RoundTrip.EqualBytesSplit | LZ65.cs:38-77 | 256 copies of one byte compress to the literal `Token(0, 1, Raw)`, one RLE token for the other 255 bytes and EOS: the loop ends on this buffer. |
| RoundTrip.ZeroBufferShrinks | LZ65.cs:240 | 256 zero bytes compress to `01 00 FF 00 C0`. The run header `0x80 \| 255` is `0xFF`, which reads back as EOS, and decompressing gives only the one byte 0. |
| RoundTrip.ZeroRunVanishes | LZ65.cs:240 | 64 zero bytes compress to one RLE token of length 64 and the stream `C0 00 C0`, which decompresses to nothing. |
| RoundTrip.StreamShrinks | LZ65.cs:100-129 | The stream `01 00 FF 00 C0` parses to RAW 1 at 0, EOS 63 at 2, an empty RAW at 3 and EOS at 4, and replays to the one byte 0. |
| RoundTrip.StreamC000C0Empty | LZ65.cs:100-129 | The stream `C0 00 C0` parses to EOS at 0, an empty RAW at 1 and EOS at 2, and replays to nothing. |
| Capped.CapStands | LZ65.cs:41-50 | Cutting a pick to 63 bytes leaves a token that still stands for a prefix of its bytes and fits in a header. |
| Capped.CappedFits | LZ65.cs:38-77 | From any state the capped loop reaches, its tokens describe the rest of the buffer and every one fits in a header. |
| Capped.CappedCovers | LZ65.cs:38-77 | The capped list covers the buffer, fits in headers, and every payload exists. |
| Capped.CappedRoundTrip | LZ65.cs:22-130 | With the capped list, decompressing what is emitted gives back every buffer `Compress` finishes on, when every header but the last starts below offset 256. |
| Wide.HeadAt | LZ65.cs:103-105 | The token read from a header, with its offset kept outside the token: position 0 and a length of at most 63. |
| Wide.WideReplay | LZ65.cs:100-129 | The parse and replay loops with each header's offset kept as an int: the cursor only moves forward within the buffer, and every byte before the starting cursor is kept. |
| Wide.WideDecoded | LZ65.cs:124-129 | What the corrected `Decompress` returns is at most 256 bytes. |
| Wide.WideEmitted | LZ65.cs:100-129 | With offsets kept as ints, replaying the bytes emitted for a describing list stays in bounds and leaves the buffer in front of the destination, however long the stream is. |
| Wide.WideDecodeEmitted | LZ65.cs:87-130 | With offsets kept as ints, the bytes emitted for a covering list with lengths of at most 63 decompress to the buffer, with no condition on the stream's length. |
| Wide.WideRoundTrip | LZ65.cs:22-130 | With offsets kept as ints, `Decompress(Compress(s))` gives back `s` whenever every token fits in a header, except for the wrapped 256-byte literal buffer. |
| Wide.WideWrap | LZ65.cs:61 | The wrapped stream `00 C0` decompresses to nothing with offsets kept as ints too. |
| Wide.CappedWideRoundTrip | LZ65.cs:22-130 | With both corrections, every buffer `Compress` accepts comes back whole from its stream. |
| HeaderOffsets.DecodeMisread | LZ65.cs:100-129 | When every header before the last data token is below offset 256 and that token is RAW of `n` bytes with its header at 256, decompressing gives the buffer with its last `n` bytes replaced by the `n` bytes after the stream's first byte. |
| HeaderOffsets.HalvesRoundTrip | LZ65.cs:22-130 | The buffer `0 0 1 1 … 127 127` compresses to 128 two-byte runs and EOS, a 257-byte stream whose EOS header lies at offset 256, and still decompresses to itself. |
| HeaderOffsets.LateRawMisread | LZ65.cs:22-130 | A 256-byte buffer of a byte `a`, the pairs `0 0 … 126 126` and a byte `b` other than `a`, with `a` and `b` both at least 127, compresses to a 259-byte stream. Its last RAW header lies at offset 256, so `Decompress` returns the buffer with `b` replaced by `a`. With offsets kept as ints it comes back whole. |
| HeaderOffsets.LateRawKept | LZ65.cs:22-130 | The same buffer with `b` equal to `a`, at least 127: its last RAW header still lies at offset 256, so the header condition of `RoundTrip.RoundTrip` fails, yet `Decompress` gives the buffer back because the misread byte is `a`. |

## Left out

- Console output is not modelled: `PrintBytes`, `ToString` and the token printing in `WriteDecompressBuffer` and `EmitCompressStream` (LZ65.cs:11-19, 226-229, 263-266, 270-293). It has no effect on the data.
- Streams are not modelled: `BufferSourceStream`, the `MemoryStream` and `BinaryWriter` of `Compress`, and the stream `Decompress` returns (LZ65.cs:26, 80-85, 90, 129, 169-176). Both operations take and return byte sequences.
- `Span.IndexOf` is library code. `MatchFinder.IndexOf` is a reference definition of it: the first position of the pattern, or -1.
- `LzToken` is a class in C#. It is modelled as a value, because the only field update, `rawToken.length += token.length`, changes a token nobody else refers to. The accumulator is an `Option<Token>` that is rebuilt with the length cast to a byte.
- `LzToken.commandFlag` is a byte in C#. It is modelled as a four-valued `Command`. Every value the codec stores is one of the four flags, and a masked byte that is none of the three data flags is read as EOS, because EOS and the `default` branch act alike in both switches.
- The RLE write in C# fills a temporary span and copies it. The model writes the same bytes one by one.
- Encoder.Compress: requires `Encodable(src)`, a buffer of at most 256 bytes. A token keeps its source position in a byte and `Decompress` writes into a 256-byte buffer, so longer buffers are not modelled.
- Decoder.Decompress: requires `Decodable(c)`, so that every read and write stays in bounds. C# would throw an exception on such a stream, and the exception path is not modelled.
- RoundTrip.RoundTrip: requires that every token fits in a header and that every header but the last starts below offset 256, because the code as written may read the wrong payload otherwise. The header condition is sufficient, not necessary: `HeaderOffsets.LateRawKept` comes back whole with a late RAW header whose misread byte happens to be right.
- Capped.CappedRoundTrip: still states the round trip only when every header but the last starts below offset 256, because the byte-cast offset in the parse loop misreads any later one. `Wide.CappedWideRoundTrip` drops that condition by keeping offsets as ints.
- The `Capped` token list is the corrected behaviour. `Encoder.Compress` keeps modelling the code as written, so the capped list is not wired into it.

## Findings

| source | as written | input that shows it | evidently intended | confidence | as-written member | corrected member |
|---|---|---|---|---|---|---|
| LZ65.cs:240 | The header is `commandFlag \| length` with a byte length, and the encoder never caps lengths at 63. A run, a back-reference or a merged literal run of 64 bytes or more spills into the command bits. | 64 zero bytes compress to `C0 00 C0`, and the header of the run is the EOS byte. Decompressing that stream gives the empty buffer. | Tokens are cut to 63 bytes, the most six length bits hold, and a full RAW token is pushed before a new literal starts. | not executed | RoundTrip.ZeroRunVanishes | Capped.CappedRoundTrip |
| LZ65.cs:240 | The same overflow for the longest run: a run of 255 bytes gets the header `0x80 \| 255`, which is `0xFF` and masks to the EOS command. | 256 zero bytes compress to `01 00 FF 00 C0`: a literal 0, the run of the other 255 bytes and EOS. The run reads back as EOS and its byte 0 as an empty RAW, so decompressing gives the single byte 0. | Runs are cut to 63 bytes. | not executed | RoundTrip.ZeroBufferShrinks | Capped.CappedRoundTrip |
| LZ65.cs:105 | The parse loop builds each token with `new LzToken(idx, …)`, and the constructor casts `idx` to a byte (line 187). A header at offset 256 or more is then read at its offset mod 256, and its payload is read from the front of the stream. | A 256-byte buffer of 200, the pairs `0 0 1 1 … 126 126` and 201 compresses to RAW 200, 127 two-byte runs, RAW 201 and EOS. The header of RAW 201 lies at offset 256, so `Decompress` copies `c[1]`, the byte 200, in place of 201. | The replay reads each payload just after its own header, with the offset kept as an int. | not executed | HeaderOffsets.LateRawMisread | Wide.CappedWideRoundTrip |
| LZ65.cs:61 | The merged RAW length is a byte, and `+=` wraps at 256. | The 256 distinct bytes 0, 1, ..., 255 compress to `Token(0, 0, Raw)` and EOS. That is the stream `00 C0`, which decompresses to the empty buffer. | The merged RAW token never grows past 63 bytes. | not executed | RoundTrip.DistinctWraps | Capped.CappedRoundTrip |
