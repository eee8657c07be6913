/**
 The encoder: the byte image that WriteResourceListToBoard builds from a board
 record before handing it to the write loop.
 */
module Encoder {
  import opened Board

  /** The 7 header bytes, YEAR split high byte first. */
  function HeaderBytes(info: BoardInfo): (h: seq<uint8>)
    ensures |h| == HeaderSize && Join16(h[4], h[5]) == info.year
  {
    [info.params, info.model, info.day, info.month, info.year / 0x100, info.year % 0x100, info.pcbVer]
  }

  function EntryBytes(r: Resource): (b: seq<uint8>)
    ensures |b| == EntrySize && EntryAt(b, 0, r)
  {
    [r.kind, r.iicAddress, r.busIndex]
  }

  /** The resource entries back to back, in list order. */
  function EntriesBytes(rs: seq<Resource>): (b: seq<uint8>)
    ensures |b| == EntrySize * |rs|
  {
    if rs == [] then [] else EntryBytes(rs[0]) + EntriesBytes(rs[1..])
  }

  /** The whole image: header, then one 3-byte entry per resource; no sentinel, no padding. */
  function Image(d: EepromData): (img: seq<uint8>)
    ensures |img| == HeaderSize + EntrySize * |d.resources|
  {
    HeaderBytes(d.info) + EntriesBytes(d.resources)
  }

  /** Byte-level layout of an image, stated position by position. */
  ghost predicate LaidOut(buf: seq<uint8>, d: EepromData)
  {
    && |buf| == HeaderSize + EntrySize * |d.resources|
    && buf[0] == d.info.params
    && buf[1] == d.info.model
    && buf[2] == d.info.day
    && buf[3] == d.info.month
    && Join16(buf[4], buf[5]) == d.info.year
    && buf[6] == d.info.pcbVer
    && forall i :: 0 <= i < |d.resources| ==> EntryAt(buf, EncodeBase + EntrySize * i, d.resources[i])
  }

  lemma {:induction false} EntriesBytesAt(rs: seq<Resource>, i: nat)
    requires i < |rs|
    ensures EntryAt(EntriesBytes(rs), EntrySize * i, rs[i])
  {
    if i > 0 {
      EntriesBytesAt(rs[1..], i - 1);
    }
  }

  /** Any byte sequence holding the entries of `rs` at offsets 0, 3, 6, ... is their encoding. */
  lemma {:induction false} EntriesBytesUnique(rs: seq<Resource>, b: seq<uint8>)
    requires |b| == EntrySize * |rs|
    requires forall i :: 0 <= i < |rs| ==> EntryAt(b, EntrySize * i, rs[i])
    ensures b == EntriesBytes(rs)
  {
    if rs != [] {
      var tail := b[EntrySize..];
      forall i | 0 <= i < |rs[1..]|
        ensures EntryAt(tail, EntrySize * i, rs[1..][i])
      {
        assert EntryAt(b, EntrySize * (i + 1), rs[i + 1]);
      }
      EntriesBytesUnique(rs[1..], tail);
      assert EntryAt(b, 0, rs[0]);
      assert b == b[..EntrySize] + tail;
    }
  }

  /** The image has the layout: header fields at 0..6 (YEAR big-endian at 4, 5), resource i at 7 + 3i. */
  lemma ImageLaidOut(d: EepromData)
    ensures LaidOut(Image(d), d)
  {
    var img := Image(d);
    forall i | 0 <= i < |d.resources|
      ensures EntryAt(img, EncodeBase + EntrySize * i, d.resources[i])
    {
      EntriesBytesAt(d.resources, i);
      assert img[HeaderSize..] == EntriesBytes(d.resources);
    }
  }

  /** The layout determines the image: a buffer laid out for `d` is exactly Image(d). */
  lemma LaidOutIsImage(buf: seq<uint8>, d: EepromData)
    requires LaidOut(buf, d)
    ensures buf == Image(d)
  {
    var rs := d.resources;
    var tail := buf[HeaderSize..];
    forall i | 0 <= i < |rs|
      ensures EntryAt(tail, EntrySize * i, rs[i])
    {
      assert EntryAt(buf, EncodeBase + EntrySize * i, rs[i]);
    }
    EntriesBytesUnique(rs, tail);
    assert buf[4] == d.info.year / 0x100 && buf[5] == d.info.year % 0x100;
    assert buf[..HeaderSize] == HeaderBytes(d.info);
    assert buf == buf[..HeaderSize] + tail;
  }

  /**
   The buffer-filling part of WriteResourceListToBoard: allocate 7 + 3N bytes,
   write the header by index, then each resource at offset i * 3 + 7.
   */
  method EncodeImage(data: EepromData) returns (buf: array<uint8>)
    ensures buf.Length == HeaderSize + EntrySize * |data.resources|
    ensures buf[..] == Image(data)
  {
    var info := data.info;
    var n := |data.resources|;
    buf := new uint8[HeaderSize + EntrySize * n];
    buf[0] := info.params;
    buf[1] := info.model;
    buf[2] := info.day;
    buf[3] := info.month;
    buf[4] := info.year / 0x100;
    buf[5] := info.year % 0x100;
    buf[6] := info.pcbVer;
    var i := 0;
    while i < n
      invariant 0 <= i <= n
      invariant buf[0] == info.params && buf[1] == info.model && buf[2] == info.day
      invariant buf[3] == info.month && Join16(buf[4], buf[5]) == info.year && buf[6] == info.pcbVer
      invariant forall j :: 0 <= j < i ==> EntryAt(buf[..], EncodeBase + EntrySize * j, data.resources[j])
    {
      var off := i * 3 + 7;
      var res := data.resources[i];
      buf[off] := res.kind;
      buf[off + 1] := res.iicAddress;
      buf[off + 2] := res.busIndex;
      i := i + 1;
    }
    LaidOutIsImage(buf[..], data);
  }
}
