/**
 Shared vocabulary of the EEPROM board-description codec: the byte types, the
 record kept on the device (board header plus resource list), the fixed layout
 constants and the error values of the encoder, decoder and bus transport.
 */
module Board {

  /** Go's `byte`. */
  type uint8 = x: int | 0 <= x < 0x100

  /** Go's `uint16`, the width of the YEAR field. */
  type uint16 = x: int | 0 <= x < 0x1_0000

  /** Bytes of the board header: PARAMS, MODEL, DAY, MONTH, YEAR (2), PCB_VER. */
  const HeaderSize: nat := 7
  /** Bytes of one resource entry: Type, IICAddres, BusIndex. */
  const EntrySize: nat := 3
  /** Bytes the decoder reads back from register 0. */
  const ImageSize: nat := 250
  /** Hard cap on the decoder's scan loop. */
  const ScanLimit: nat := 82
  /** Offset at which the encoder writes resource 0. */
  const EncodeBase: nat := 7
  /** Offset at which the decoder reads resource 0. */
  const DecodeBase: nat := 6
  /** A register address is one byte, so the device has 256 addressable cells. */
  const MemorySize: nat := 256
  /** Entries that fit in the image after the header: (250 - 7) / 3. */
  const MaxEntries: nat := 81

  datatype BoardInfo = BoardInfo(
    params: uint8,
    model: uint8,
    day: uint8,
    month: uint8,
    year: uint16,
    pcbVer: uint8)

  /** `kind` is the resource's Type; 0 means "no resource" and ends the list. */
  datatype Resource = Resource(kind: uint8, iicAddress: uint8, busIndex: uint8)

  datatype EepromData = EepromData(info: BoardInfo, resources: seq<Resource>)

  datatype Error =
    | IndexOutOfRange             // the Go runtime's index-out-of-range panic
    | TransactionFailed(index: nat) // single-byte write number `index` failed
    | CapacityExceeded(count: nat)  // more resources than fit in the image

  datatype Result<T> = Ok(value: T) | Err(error: Error)

  datatype Outcome = Pass | Fail(error: Error)

  /** The three bytes at `off` in `buf` hold resource `r`, in Type, IICAddres, BusIndex order. */
  predicate EntryAt(buf: seq<uint8>, off: nat, r: Resource)
  {
    off + 2 < |buf| && buf[off] == r.kind && buf[off + 1] == r.iicAddress && buf[off + 2] == r.busIndex
  }

  /** The 16-bit value whose high byte is `hi` and low byte is `lo`. */
  function Join16(hi: uint8, lo: uint8): uint16
  {
    hi as int * 0x100 + lo as int
  }

  /** `n` zero bytes: an erased region of the device. */
  function Zeros(n: nat): (z: seq<uint8>)
    ensures |z| == n && forall i :: 0 <= i < n ==> z[i] == 0
  {
    seq(n, _ => 0)
  }
}
