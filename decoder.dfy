/**
 The decoder: the parsing half of ReadResourceListFromBoard, over the 250 bytes
 read back from register 0 of the device.
 */
module Decoder {
  import opened Board
  import Encoder

  /** Header fields from bytes 0..6, YEAR as `uint16(buf[4])<<8 + uint16(buf[5])`. */
  function DecodeHeader(buf: seq<uint8>): (info: BoardInfo)
    requires |buf| >= HeaderSize
    ensures Encoder.HeaderBytes(info) == buf[..HeaderSize]
  {
    BoardInfo(buf[0], buf[1], buf[2], buf[3], Join16(buf[4], buf[5]), buf[6])
  }

  /** `prefix` put in front of a successful scan; errors pass through. */
  function Prefixed(prefix: seq<Resource>, r: Result<seq<Resource>>): Result<seq<Resource>>
  {
    match r
    case Ok(rest) => Ok(prefix + rest)
    case Err(e) => Err(e)
  }

  lemma PrefixedAssociates(a: seq<Resource>, b: seq<Resource>, r: Result<seq<Resource>>)
    ensures Prefixed(a, Prefixed(b, r)) == Prefixed(a + b, r)
  {
    if r.Ok? {
      assert a + (b + r.value) == (a + b) + r.value;
    }
  }

  lemma PrefixedEmpty(a: seq<Resource>, r: Result<seq<Resource>>)
    ensures Prefixed([], r) == r
    ensures Prefixed(a, Ok([])) == Ok(a)
  {
    assert a + [] == a;
    if r.Ok? {
      assert [] + r.value == r.value;
    }
  }

  /**
   The resource scan from iteration `i` on: entry `i` is read at `base + 3 * i`;
   a zero Type byte stops the scan, and so does reaching `cap` iterations. An
   index at or past the end of `buf` is the Go runtime's index-out-of-range
   panic. The Type byte is indexed first, then IICAddres, then BusIndex.
   */
  function Scan(buf: seq<uint8>, base: nat, cap: nat, i: nat): (r: Result<seq<Resource>>)
    ensures r.Ok? ==> forall j :: 0 <= j < |r.value| ==> r.value[j].kind != 0
    ensures r.Ok? && i <= cap ==> i + |r.value| <= cap
    decreases cap - i
  {
    if i >= cap then Ok([])
    else
      var off := base + EntrySize * i;
      if off >= |buf| then Err(IndexOutOfRange)
      else if buf[off] == 0 then Ok([])
      else if off + 2 >= |buf| then Err(IndexOutOfRange)
      else Prefixed([Resource(buf[off], buf[off + 1], buf[off + 2])], Scan(buf, base, cap, i + 1))
  }

  /** ReadResourceListFromBoard's parse as written: resources from offset 6, at most 82 iterations. */
  function Decode(buf: seq<uint8>): (r: Result<EepromData>)
    requires |buf| == ImageSize
    ensures r.Ok? ==> r.value.info == DecodeHeader(buf) && |r.value.resources| < ScanLimit
  {
    match Scan(buf, DecodeBase, ScanLimit, 0)
    case Ok(rs) =>
      ScanStopsBeforeCap(buf, 0);
      Ok(EepromData(DecodeHeader(buf), rs))
    case Err(e) => Err(e)
  }

  /**
   The parse with the entry offset the encoder uses (7) and a cap that keeps
   every entry inside the 250-byte image (81).
   */
  function DecodeFixed(buf: seq<uint8>): (r: Result<EepromData>)
    requires |buf| == ImageSize
    ensures r.Ok? ==> r.value.info == DecodeHeader(buf)
    ensures r.Ok? ==> |r.value.resources| <= MaxEntries && forall j :: 0 <= j < |r.value.resources| ==> r.value.resources[j].kind != 0
  {
    match Scan(buf, EncodeBase, MaxEntries, 0)
    case Ok(rs) => Ok(EepromData(DecodeHeader(buf), rs))
    case Err(e) => Err(e)
  }

  /**
   A successful scan returns the longest run of entries with a non-zero Type
   byte: entry j is the triple at base + 3(i + j), no more than cap - i
   entries, and when the cap is not reached the next Type byte is the zero
   sentinel.
   */
  lemma {:induction false} ScanShape(buf: seq<uint8>, base: nat, cap: nat, i: nat, rs: seq<Resource>)
    requires i <= cap
    requires Scan(buf, base, cap, i) == Ok(rs)
    ensures i + |rs| <= cap
    ensures forall j :: 0 <= j < |rs| ==> rs[j].kind != 0 && EntryAt(buf, base + EntrySize * (i + j), rs[j])
    ensures i + |rs| < cap ==> base + EntrySize * (i + |rs|) < |buf| && buf[base + EntrySize * (i + |rs|)] == 0
    decreases cap - i
  {
    if i < cap {
      var off := base + EntrySize * i;
      if buf[off] != 0 {
        var rest :| Scan(buf, base, cap, i + 1) == Ok(rest);
        assert rs == [Resource(buf[off], buf[off + 1], buf[off + 2])] + rest;
        ScanShape(buf, base, cap, i + 1, rest);
        forall j | 0 <= j < |rs|
          ensures rs[j].kind != 0 && EntryAt(buf, base + EntrySize * (i + j), rs[j])
        {
          if j > 0 {
            assert rs[j] == rest[j - 1];
          }
        }
      }
    }
  }

  /**
   As written, the parse of a 250-byte image fails exactly when none of the 82
   Type bytes at 6, 9, ..., 249 is zero: iteration 81 then indexes byte 250.
   */
  lemma {:induction false} ScanFailsWithoutSentinel(buf: seq<uint8>, i: nat)
    requires |buf| == ImageSize && i <= ScanLimit
    ensures Scan(buf, DecodeBase, ScanLimit, i).Err?
        <==> i < ScanLimit && forall j :: i <= j < ScanLimit ==> buf[DecodeBase + EntrySize * j] != 0
    decreases ScanLimit - i
  {
    if i < ScanLimit {
      ScanFailsWithoutSentinel(buf, i + 1);
      if i + 1 < ScanLimit && buf[DecodeBase + EntrySize * i] != 0 {
        var r := Scan(buf, DecodeBase, ScanLimit, i + 1);
        assert Scan(buf, DecodeBase, ScanLimit, i).Err? == r.Err?;
      }
    }
  }

  /**
   As written, a scan that succeeds ends before its 82nd entry: reaching
   iteration 81 with a non-zero Type byte at 249 indexes byte 250.
   */
  lemma {:induction false} ScanStopsBeforeCap(buf: seq<uint8>, i: nat)
    requires |buf| == ImageSize && i < ScanLimit
    ensures Scan(buf, DecodeBase, ScanLimit, i).Ok? ==> i + |Scan(buf, DecodeBase, ScanLimit, i).value| < ScanLimit
    decreases ScanLimit - i
  {
    if i + 1 < ScanLimit {
      ScanStopsBeforeCap(buf, i + 1);
    }
  }

  lemma DecodeFailsIffNoSentinel(buf: seq<uint8>)
    requires |buf| == ImageSize
    ensures Decode(buf).Err? <==> forall j :: 0 <= j < ScanLimit ==> buf[DecodeBase + EntrySize * j] != 0
  {
    ScanFailsWithoutSentinel(buf, 0);
  }

  /** Every entry scanned from offset 7 with cap 81 lies inside a 250-byte image. */
  lemma {:induction false} ScanFixedSucceeds(buf: seq<uint8>, i: nat)
    requires |buf| == ImageSize && i <= MaxEntries
    ensures Scan(buf, EncodeBase, MaxEntries, i).Ok?
    decreases MaxEntries - i
  {
    if i < MaxEntries {
      ScanFixedSucceeds(buf, i + 1);
    }
  }

  lemma DecodeFixedSucceeds(buf: seq<uint8>)
    requires |buf| == ImageSize
    ensures DecodeFixed(buf).Ok?
    ensures DecodeFixed(buf).value.info == DecodeHeader(buf)
    ensures |DecodeFixed(buf).value.resources| <= MaxEntries
  {
    ScanFixedSucceeds(buf, 0);
    ScanShape(buf, EncodeBase, MaxEntries, 0, DecodeFixed(buf).value.resources);
  }

  /**
   The scan loop of ReadResourceListFromBoard over the bytes already read:
   header from bytes 0..6, then entries at i * 3 + 6 until a zero Type byte or
   82 iterations, each appended to the list.
   */
  method ReadResourceList(buf: seq<uint8>) returns (r: Result<EepromData>)
    requires |buf| == ImageSize
    ensures r == Decode(buf)
  {
    var info := BoardInfo(buf[0], buf[1], buf[2], buf[3], Join16(buf[4], buf[5]), buf[6]);
    var resources: seq<Resource> := [];
    var i := 0;
    PrefixedEmpty(resources, Scan(buf, DecodeBase, ScanLimit, 0));
    while i < ScanLimit
      invariant 0 <= i <= ScanLimit
      invariant Scan(buf, DecodeBase, ScanLimit, 0) == Prefixed(resources, Scan(buf, DecodeBase, ScanLimit, i))
    {
      var off := i * 3 + 6;
      if buf[off] == 0 {
        PrefixedEmpty(resources, Scan(buf, DecodeBase, ScanLimit, i));
        break;
      }
      if off + 2 >= |buf| {
        return Err(IndexOutOfRange);
      }
      var res := Resource(buf[off], buf[off + 1], buf[off + 2]);
      PrefixedAssociates(resources, [res], Scan(buf, DecodeBase, ScanLimit, i + 1));
      resources := resources + [res];
      i := i + 1;
    }
    PrefixedEmpty(resources, Scan(buf, DecodeBase, ScanLimit, i));
    return Ok(EepromData(info, resources));
  }
}
