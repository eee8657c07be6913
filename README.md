# EEPROM board-description codec (bluepill-extenstion-tool)

A Dafny model of the codec and write loop that the bluepill extension tool uses
to keep a board description on the EEPROM of a PCA9500 (bus address 0x56). The
record is a 7-byte header and a list of 3-byte resource entries:

- PARAMS, MODEL, DAY, MONTH, YEAR (two bytes, high byte first) and PCB_VER;
- one Type, IICAddres, BusIndex triple per resource. A Type of 0 means "no
  resource" and ends the list when it is read back.

The model has five modules:

- `Board` (board.dfy) holds the byte types, the record datatypes, the layout
  constants and the error values.
- `Encoder` (encoder.dfy) models the buffer that `WriteResourceListToBoard` fills.
  `EncodeImage` fills an array the way the source does. `Image` is the function
  that specifies it. `LaidOut` states the image byte by byte, and two lemmas show
  that `Image` and `LaidOut` agree in both directions.
- `Decoder` (decoder.dfy) models the parse in `ReadResourceListFromBoard` over the
  250 bytes read from register 0. `ReadResourceList` is the scan loop with its
  early `break`. `Scan` and `Decode` are the functions that specify it. Reading
  past the end of the buffer is a Go index-out-of-range panic, and the model
  returns it as `Err(IndexOutOfRange)`.
- `Transport` (transport.dfy) models `pcaWriteBytes` against class `Eeprom`, which
  holds:
  - 256 one-byte cells, one per register address;
  - a log of every single-byte transaction put on the bus;
  - a count of the settle delays waited.

  The function argument `fails` says which transaction fails. `Stored` states
  which cells hold what after a prefix of the bytes has been written.
- `Provisioning` (provisioning.dfy) holds the board-level write and the round-trip
  lemmas. It also has the corrected write and parse, and the reference board
  ADLIOIPTX.

The encoder and the parse disagree on where resource 0 sits: the encoder
writes it at offset 7, right after the header (main.go:28), while the parse
reads it at offset 6, the PCB_VER byte (main.go:152). The model keeps the parse
as written (`Decode`) and adds the offset-7 parse as the corrected definition
(`DecodeFixed`); see Findings.

## Model

| member | source | states |
|---|---|---|
| Encoder.HeaderBytes | main.go:19-25 | the header is 7 bytes and bytes 4, 5 recombine high byte first to YEAR (Encoder.ImageLaidOut states every header byte) |
| Encoder.EntryBytes | main.go:29-31 | an entry is 3 bytes: Type, IICAddres, BusIndex in that order |
| Encoder.EntriesBytes | main.go:27-32 | the entries take exactly 3 bytes per resource |
| Encoder.Image | main.go:17 | the image is exactly 7 + 3N bytes long |
| Encoder.EntriesBytesAt | main.go:27-32 | resource i sits at entry offset 3i as Type, IICAddres, BusIndex |
| Encoder.EntriesBytesUnique | main.go:27-32 | any byte sequence holding resource i at 3i for every i is the entry encoding (the layout determines the bytes) |
| Encoder.ImageLaidOut | main.go:17-32 | header bytes 0,1,2,3,6 are PARAMS, MODEL, DAY, MONTH, PCB_VER; bytes 4,5 recombine high-first to YEAR; resource i occupies 7+3i .. 9+3i in list order |
| Encoder.LaidOutIsImage | main.go:17-32 | a buffer of the right length with that byte layout equals the image (converse of ImageLaidOut) |
| Encoder.EncodeImage | main.go:16-32 | the filled array has length 7 + 3N and holds exactly the image |
| Decoder.DecodeHeader | main.go:143-148 | encoding the decoded header gives bytes 0..6 back (Provisioning.HeaderRoundTrip is the other direction) |
| Decoder.Scan | main.go:151-156 | every entry the scan returns has a non-zero Type and there are at most cap - i of them (Decoder.ScanShape gives the full longest-prefix characterisation) |
| Decoder.Decode | main.go:142-157 | a successful parse has the header of bytes 0..6 and fewer than 82 resources, because an 82nd entry would index byte 250 |
| Decoder.DecodeFixed | main.go:142-157 | a successful offset-7 parse has the header of bytes 0..6 and at most 81 resources, each with a non-zero Type |
| Decoder.ScanShape | main.go:151-157 | a successful scan returns entries read at base + 3(i+j), each with non-zero Type, at most cap of them, and when the cap is not reached the next Type byte is 0 (longest non-zero prefix) |
| Decoder.ScanFailsWithoutSentinel | main.go:151-156 | from iteration i, the as-written scan fails exactly when every Type byte at 6 + 3j, i <= j < 82, is non-zero |
| Decoder.ScanStopsBeforeCap | main.go:151-156 | a successful as-written scan from iteration i ends before iteration 82 |
| Decoder.DecodeFailsIffNoSentinel | main.go:137-157 | the as-written parse of 250 bytes fails if and only if none of the 82 Type bytes at 6, 9, ..., 249 is zero |
| Decoder.ScanFixedSucceeds | main.go:151-156 | the offset-7 scan capped at 81 never indexes outside a 250-byte buffer |
| Decoder.DecodeFixedSucceeds | main.go:142-157 | the offset-7 parse always succeeds on 250 bytes, with the header of bytes 0..6 and at most 81 resources |
| Decoder.ReadResourceList | main.go:142-159 | the loop-with-break parse returns exactly Decode(buf), the panic included |
| Transport.Register | main.go:115 | byte(addr + byte(i)) is (addr + i) mod 256 |
| Transport.Transactions | main.go:114-115 | one transaction per byte, in order; transaction j addresses register byte(addr + byte(j)) and carries bytes[j] |
| Transport.Stored | main.go:114-120 | writing any bytes keeps the memory at 256 cells |
| Transport.FirstFailure | main.go:114-118 | the index returned is the first transaction the oracle fails, or the byte count when none fails |
| Transport.RegistersDistinct | main.go:115 | transactions fewer than 256 apart address different registers |
| Transport.StoredUntouched | main.go:114-120 | a cell that no written byte addresses keeps its old value |
| Transport.StoredLastWriter | main.go:114-120 | a cell holds the last byte written to it: byte j, when no later byte addresses the same register |
| Transport.StoredWritten | main.go:114-120 | with at most 256 bytes, byte j ends in cell (addr + j) mod 256 |
| Transport.StoredFromZeroAt | main.go:114-120 | after writing at most 256 bytes from register 0, cell c holds byte c when c is below the byte count, else its old value |
| Transport.StoredFromZero | main.go:114-120 | writing at most 256 bytes from register 0 replaces exactly the first cells by the bytes |
| Transport.Eeprom.constructor | main.go:108 | the device starts with the given 256 cells, an empty bus log and no settle delays |
| Transport.Eeprom.WriteBytes | main.go:107-122 | one transaction per byte in increasing order to register (addr + i) mod 256; on the first failing transaction k, the result is that failure, k + 1 transactions were issued, k settle delays waited, and only the cells of bytes 0..k-1 changed |
| Provisioning.UpToSentinel | main.go:151-156 | the longest prefix whose entries all have a non-zero Type: a prefix, all non-zero, and followed by a zero Type if shorter |
| Provisioning.WriteResourceListToBoard | main.go:16-34 | the image is written from register 0; outcome, memory, bus log and delay count are those of the write loop on the image |
| Provisioning.WriteResourceListChecked | main.go:16-34 | more than 81 resources are refused with nothing written; otherwise as the unchecked write, and a complete write leaves the image in the first cells and every later cell unchanged |
| Provisioning.HeaderRoundTrip | main.go:143-148 | every header field, YEAR included, survives encode then decode |
| Provisioning.DecodeOfImage | main.go:152-153 | as written, decoding an encoded image gives no resources when PCB_VER is 0, and otherwise, when the parse succeeds, a first entry whose Type is PCB_VER and whose other two fields are the first resource's Type and IICAddres |
| Provisioning.ScanFixedOfImage | main.go:151-157 | the offset-7 scan of an image with a zero byte after it yields the resources up to the first zero Type |
| Provisioning.RoundTripFixed | main.go:135-157 | with the offset-7 parse, encode then decode gives back the header and the resources up to the first zero Type, and the whole record when no Type is zero |
| Provisioning.WriteThenReadFixed | main.go:16-34 | a complete write read back with the offset-7 parse gives the header and the resources up to the first zero Type, and the whole record when no Type is zero, provided the cell after the image already held a zero |
| Provisioning.StaleEntryResurfaces | main.go:151-156 | if a shorter list is written over a cell holding a stale non-zero Type, reading back does not give the record written |
| Provisioning.OversizedWriteOverwritesHeader | main.go:115 | with 84 resources the last entry wraps to registers 0..2 and replaces PARAMS, MODEL and DAY |
| Provisioning.ReferenceBoard | main.go:36-82 | the ADLIOIPTX record; it has no contract of its own, and Provisioning.ReferenceImage, Provisioning.ReferenceBoardMisdecoded and Provisioning.ReferenceBoardRoundTripFixed state its properties |
| Provisioning.ReferenceImage | main.go:36-82 | the reference board encodes to 34 bytes with header 14, 1, 25, 12, 0x07, 0xE5, 1 |
| Provisioning.ReferenceBoardMisdecoded | main.go:150-157 | as written, the zero-padded reference image decodes to one resource (1, relay code, 0) instead of nine |
| Provisioning.ReferenceBoardRoundTripFixed | main.go:36-82 | with the offset-7 parse, the zero-padded reference image decodes to the reference board |

## Left out

- Opening the I²C connection (`i2c.NewI2C`) and its error return (main.go:108-111) are not modelled. They are a hardware driver call.
- The whole `pcaReadBytes` wrapper (main.go:86-105) is not modelled, and neither is the read error it passes on (main.go:137-140). The parse takes the 250 bytes it would have returned.
- The bus `Write` calls are not modelled. `Eeprom` stands for the device and `fails` for whether each transaction fails. A failing transaction is logged on the bus but does not change its cell.
- The 5 ms `time.Sleep` delays (main.go:99, 119) are only counted, in `settleDelays`. Their length is physical timing.
- Logging and the `main` dispatch over `os.Args` (main.go:162-181) are not modelled. They are I/O and command-line plumbing.
- `ADLIOIPTX` (main.go:36-82) is modelled as `ReferenceBoard`. It takes the numeric resource-kind codes as a parameter, because the `ResourceType` constants come from a library that is not part of this model.
- `periph.EEPROMData`, `BoardInfo`, `Resource` and `ResourceType` come from that same external library. Every field is modelled as a byte and YEAR as 16 bits. If `ResourceType` is wider than a byte, `byte(res.Type)` truncates it, and the model does not show that truncation.
- The commented-out `ExpansionConnected` (main.go:124-133) is not modelled.
- A Go runtime panic ends the process. The model returns it as the value `Err(IndexOutOfRange)`.

## Findings

| source | as written | input that shows it | evidently intended | confidence | as-written member | corrected member |
|---|---|---|---|---|---|---|
| main.go:152 | the parse reads resource i at i*3 + 6, but the encoder writes it at i*3 + 7 (main.go:28), so entry 0 starts at PCB_VER | the reference board (PCB_VER 1, nine resources) zero-padded to 250 bytes decodes to the single resource (1, relay code, 0) | read resource i at i*3 + 7 so that encode then decode gives the record back | high; not executed | Provisioning.ReferenceBoardMisdecoded | Provisioning.RoundTripFixed |
| main.go:151-156 | the scan runs up to 82 iterations over 250 bytes; at i = 81, off = 249, and building the entry indexes buf[250] | any 250-byte image whose Type bytes at 6, 9, ..., 249 are all non-zero panics with index out of range | a cap that keeps every entry inside the image (81 entries from offset 7) | high; not executed | Decoder.DecodeFailsIffNoSentinel | Decoder.DecodeFixedSucceeds |
| main.go:17 | no check of the resource count against the 250-byte image; the write loop's register byte wraps at 256 (main.go:115) | 84 resources give 259 bytes, and bytes 256..258 go to registers 0..2, overwriting PARAMS, MODEL and DAY | refuse more than 81 resources before writing anything | medium; not executed | Provisioning.OversizedWriteOverwritesHeader | Provisioning.WriteResourceListChecked |
