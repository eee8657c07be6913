/**
 The board-level operations: WriteResourceListToBoard (encode, then the write
 loop from register 0), what the decoder makes of an encoded image, and the
 capacity-checked write and offset-7 parse that the layout calls for.
 */
module Provisioning {
  import opened Board
  import opened Encoder
  import opened Decoder
  import opened Transport

  /** The longest prefix of `rs` whose entries all have a non-zero Type. */
  function UpToSentinel(rs: seq<Resource>): (r: seq<Resource>)
    ensures |r| <= |rs| && r == rs[..|r|]
    ensures forall j :: 0 <= j < |r| ==> r[j].kind != 0
    ensures |r| < |rs| ==> rs[|r|].kind == 0
  {
    if rs == [] || rs[0].kind == 0 then [] else [rs[0]] + UpToSentinel(rs[1..])
  }

  /** A list without a zero Type is its own longest non-zero prefix. */
  lemma UpToSentinelAll(rs: seq<Resource>)
    requires forall j :: 0 <= j < |rs| ==> rs[j].kind != 0
    ensures UpToSentinel(rs) == rs
  {
  }

  /**
   WriteResourceListToBoard: encode `data` and write the image byte by byte
   from register 0. The first failing transaction ends the write; the cells
   written before it keep their new values.
   */
  method WriteResourceListToBoard(dev: Eeprom, data: EepromData, fails: nat -> bool) returns (outcome: Outcome)
    requires dev.Valid()
    modifies dev, dev.cells
    ensures dev.Valid() && dev.cells == old(dev.cells)
    ensures var img := Image(data); var k := FirstFailure(fails, |img|, 0);
      && outcome == (if k < |img| then Fail(TransactionFailed(k)) else Pass)
      && dev.cells[..] == Stored(old(dev.cells[..]), 0, img[..k])
      && dev.bus == old(dev.bus) + Transactions(0, img[..if k < |img| then k + 1 else k])
      && dev.settleDelays == old(dev.settleDelays) + k
  {
    var buf := EncodeImage(data);
    outcome := dev.WriteBytes(0, buf[..], fails);
  }

  /**
   The write with a capacity check: a list of more than 81 resources is
   refused before any transaction; otherwise the image fits in the 250-byte
   region, no register address wraps, and a complete write leaves the image
   in cells 0 .. 6 + 3N with every later cell unchanged.
   */
  method WriteResourceListChecked(dev: Eeprom, data: EepromData, fails: nat -> bool) returns (outcome: Outcome)
    requires dev.Valid()
    modifies dev, dev.cells
    ensures dev.Valid() && dev.cells == old(dev.cells)
    ensures |data.resources| > MaxEntries ==>
      && outcome == Fail(CapacityExceeded(|data.resources|))
      && dev.cells[..] == old(dev.cells[..]) && dev.bus == old(dev.bus) && dev.settleDelays == old(dev.settleDelays)
    ensures |data.resources| <= MaxEntries ==>
      var img := Image(data); var k := FirstFailure(fails, |img|, 0);
      && |img| <= ImageSize
      && outcome == (if k < |img| then Fail(TransactionFailed(k)) else Pass)
      && dev.cells[..] == Stored(old(dev.cells[..]), 0, img[..k])
      && dev.bus == old(dev.bus) + Transactions(0, img[..if k < |img| then k + 1 else k])
      && dev.settleDelays == old(dev.settleDelays) + k
    ensures |data.resources| <= MaxEntries && outcome == Pass ==>
      dev.cells[..] == Image(data) + old(dev.cells[..])[|Image(data)|..]
  {
    if |data.resources| > MaxEntries {
      return Fail(CapacityExceeded(|data.resources|));
    }
    var buf := EncodeImage(data);
    outcome := dev.WriteBytes(0, buf[..], fails);
    if outcome == Pass {
      assert buf[..][..|buf[..]|] == buf[..];
      StoredFromZero(old(dev.cells[..]), buf[..]);
    }
  }

  /** Every header field survives encode then decode, YEAR through its two bytes. */
  lemma HeaderRoundTrip(d: EepromData, pad: seq<uint8>)
    requires |Image(d) + pad| == ImageSize
    ensures DecodeHeader(Image(d) + pad) == d.info
    ensures Decode(Image(d) + pad).Ok? ==> Decode(Image(d) + pad).value.info == d.info
  {
    ImageLaidOut(d);
  }

  /**
   As written the decoder reads entry 0 at offset 6, which holds PCB_VER: a
   zero PCB_VER yields an empty list, a non-zero one a first entry whose Type
   is PCB_VER and whose IICAddres and BusIndex are the first resource's Type
   and IICAddres.
   */
  lemma DecodeOfImage(d: EepromData, pad: seq<uint8>)
    requires |Image(d) + pad| == ImageSize
    ensures d.info.pcbVer == 0 ==> Decode(Image(d) + pad) == Ok(EepromData(d.info, []))
    ensures d.info.pcbVer != 0 && Decode(Image(d) + pad).Ok? ==>
      var got := Decode(Image(d) + pad).value.resources;
      && |got| > 0
      && got[0].kind == d.info.pcbVer
      && (|d.resources| > 0 ==> got[0].iicAddress == d.resources[0].kind && got[0].busIndex == d.resources[0].iicAddress)
  {
    var buf := Image(d) + pad;
    ImageLaidOut(d);
    HeaderRoundTrip(d, pad);
    if d.info.pcbVer != 0 && Decode(buf).Ok? {
      var got := Decode(buf).value.resources;
      ScanShape(buf, DecodeBase, ScanLimit, 0, got);
      if |d.resources| > 0 {
        assert EntryAt(buf, EncodeBase, d.resources[0]);
      }
    }
  }

  /** The offset-7 scan of an encoded image returns the resources up to the first zero Type. */
  lemma {:induction false} ScanFixedOfImage(d: EepromData, pad: seq<uint8>, i: nat)
    requires |Image(d) + pad| == ImageSize && |d.resources| <= MaxEntries && i <= |d.resources|
    requires |d.resources| < MaxEntries ==> pad[0] == 0
    ensures Scan(Image(d) + pad, EncodeBase, MaxEntries, i) == Ok(UpToSentinel(d.resources[i..]))
    decreases |d.resources| - i
  {
    var buf := Image(d) + pad;
    var rs := d.resources;
    ImageLaidOut(d);
    if i == |rs| {
      assert rs[i..] == [];
      if i < MaxEntries {
        assert buf[EncodeBase + EntrySize * i] == pad[0];
      }
    } else {
      assert EntryAt(buf, EncodeBase + EntrySize * i, rs[i]);
      assert rs[i..][0] == rs[i];
      if rs[i].kind != 0 {
        ScanFixedOfImage(d, pad, i + 1);
        assert rs[i..][1..] == rs[i + 1..];
        assert Resource(buf[EncodeBase + EntrySize * i], buf[EncodeBase + EntrySize * i + 1], buf[EncodeBase + EntrySize * i + 2]) == rs[i];
      }
    }
  }

  /**
   Round trip with the offset-7 parse: an image of at most 81 resources
   followed by a zero byte decodes to the same header and to the resources
   up to the first zero Type; with no zero Type, to the record itself.
   */
  lemma RoundTripFixed(d: EepromData, pad: seq<uint8>)
    requires |Image(d) + pad| == ImageSize && |d.resources| <= MaxEntries
    requires |d.resources| < MaxEntries ==> pad[0] == 0
    ensures DecodeFixed(Image(d) + pad) == Ok(EepromData(d.info, UpToSentinel(d.resources)))
    ensures (forall j :: 0 <= j < |d.resources| ==> d.resources[j].kind != 0) ==> DecodeFixed(Image(d) + pad) == Ok(d)
  {
    ScanFixedOfImage(d, pad, 0);
    assert d.resources[0..] == d.resources;
    HeaderRoundTrip(d, pad);
    if forall j :: 0 <= j < |d.resources| ==> d.resources[j].kind != 0 {
      UpToSentinelAll(d.resources);
    }
  }

  /**
   A complete checked write read back through the offset-7 parse gives the
   header and the resources up to the first zero Type, and the record itself
   when no Type is zero, provided the cell after the image already holds a
   zero Type.
   */
  lemma WriteThenReadFixed(mem: seq<uint8>, d: EepromData)
    requires |mem| == MemorySize && |d.resources| <= MaxEntries
    requires |d.resources| < MaxEntries ==> mem[HeaderSize + EntrySize * |d.resources|] == 0
    ensures DecodeFixed(Stored(mem, 0, Image(d))[..ImageSize]) == Ok(EepromData(d.info, UpToSentinel(d.resources)))
    ensures (forall j :: 0 <= j < |d.resources| ==> d.resources[j].kind != 0) ==>
      DecodeFixed(Stored(mem, 0, Image(d))[..ImageSize]) == Ok(d)
  {
    var img := Image(d);
    StoredFromZero(mem, img);
    var pad := mem[|img|..ImageSize];
    assert Stored(mem, 0, img)[..ImageSize] == img + pad;
    RoundTripFixed(d, pad);
  }

  /**
   The hazard of a shorter write over a longer old list: when the cell after
   the new image holds a stale non-zero Type, reading back does not give the
   record that was written.
   */
  lemma StaleEntryResurfaces(mem: seq<uint8>, d: EepromData)
    requires |mem| == MemorySize && |d.resources| < MaxEntries
    requires mem[HeaderSize + EntrySize * |d.resources|] != 0
    ensures DecodeFixed(Stored(mem, 0, Image(d))[..ImageSize]) != Ok(d)
  {
    var img := Image(d);
    StoredFromZero(mem, img);
    var buf := Stored(mem, 0, img)[..ImageSize];
    assert buf[HeaderSize + EntrySize * |d.resources|] == mem[HeaderSize + EntrySize * |d.resources|];
    if DecodeFixed(buf) == Ok(d) {
      ScanShape(buf, EncodeBase, MaxEntries, 0, d.resources);
    }
  }

  /**
   Without a capacity check a list of 84 resources makes a 259-byte image; its
   last three bytes go to registers 256, 257, 258, which wrap to 0, 1, 2 and
   overwrite PARAMS, MODEL and DAY with the last resource.
   */
  lemma OversizedWriteOverwritesHeader(mem: seq<uint8>, d: EepromData)
    requires |mem| == MemorySize && |d.resources| == 84
    ensures EntryAt(Stored(mem, 0, Image(d)), 0, d.resources[83])
  {
    var img := Image(d);
    EntriesBytesAt(d.resources, 83);
    assert img[HeaderSize..] == EntriesBytes(d.resources);
    assert EntryAt(img, 256, d.resources[83]);
    forall j, l | 256 <= j < l < |img|
      ensures Target(0, l) != Target(0, j)
    {
      RegistersDistinct(0, j, l);
    }
    assert Target(0, 256) == 0 && Target(0, 257) == 1 && Target(0, 258) == 2;
    StoredLastWriter(mem, 0, img, 256);
    StoredLastWriter(mem, 0, img, 257);
    StoredLastWriter(mem, 0, img, 258);
  }

  /** Numeric codes of the resource kinds the reference board uses. */
  datatype ResourceKinds = ResourceKinds(
    relay: uint8,
    uartRs485: uint8,
    uartRs422: uint8,
    motor: uint8,
    analogIn: uint8,
    analogOut: uint8)

  /** The ADLIOIPTX board description: nine resources. */
  function ReferenceBoard(k: ResourceKinds): EepromData
  {
    EepromData(
      BoardInfo(14, 1, 25, 12, 2021, 0x01),
      [ Resource(k.relay, 0, 0),
        Resource(k.uartRs485, 0, 1),
        Resource(k.uartRs422, 0, 2),
        Resource(k.motor, 0, 1),
        Resource(k.motor, 0, 2),
        Resource(k.analogIn, 0, 1),
        Resource(k.analogIn, 0, 2),
        Resource(k.analogOut, 0, 3),
        Resource(k.analogOut, 0, 4) ])
  }

  /** The reference board encodes to 34 bytes: header 14, 1, 25, 12, 0x07, 0xE5, 1. */
  lemma ReferenceImage(k: ResourceKinds)
    ensures |Image(ReferenceBoard(k))| == 34
    ensures Image(ReferenceBoard(k))[..HeaderSize] == [14, 1, 25, 12, 0x07, 0xE5, 0x01]
  {
  }

  /**
   As written, the zero-padded reference image decodes to a single resource
   (Type PCB_VER = 1, IICAddres = the relay code, BusIndex 0) instead of nine.
   */
  lemma ReferenceBoardMisdecoded(k: ResourceKinds)
    ensures Decode(Image(ReferenceBoard(k)) + Zeros(216))
      == Ok(EepromData(ReferenceBoard(k).info, [Resource(0x01, k.relay, 0)]))
  {
    var d := ReferenceBoard(k);
    var buf := Image(d) + Zeros(216);
    ImageLaidOut(d);
    HeaderRoundTrip(d, Zeros(216));
    assert |buf| == ImageSize;
    assert EntryAt(buf, 7, d.resources[0]);
    assert buf[6] == 0x01 && buf[7] == k.relay && buf[8] == 0 && buf[9] == 0;
    assert Scan(buf, DecodeBase, ScanLimit, 1) == Ok([]);
    assert Scan(buf, DecodeBase, ScanLimit, 0) == Prefixed([Resource(0x01, k.relay, 0)], Ok([]));
    assert [Resource(0x01, k.relay, 0)] + [] == [Resource(0x01, k.relay, 0)];
  }

  /** With the offset-7 parse the zero-padded reference image gives back all nine resources. */
  lemma ReferenceBoardRoundTripFixed(k: ResourceKinds)
    requires k.relay != 0 && k.uartRs485 != 0 && k.uartRs422 != 0
    requires k.motor != 0 && k.analogIn != 0 && k.analogOut != 0
    ensures DecodeFixed(Image(ReferenceBoard(k)) + Zeros(216)) == Ok(ReferenceBoard(k))
  {
    RoundTripFixed(ReferenceBoard(k), Zeros(216));
  }
}
