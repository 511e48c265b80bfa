/**
 * The byte layout of the records read from an inotify descriptor and the
 * walk handle_inotify makes over one buffer of them: each record is a
 * 16-byte header (wd, mask, cookie, len, four little-endian 32-bit words)
 * followed by len bytes of NUL-padded name, and the next record starts
 * right after the name.
 */
module InotifyRecords {

  type byte = b: int | 0 <= b < 256

  const HEADER_SIZE: nat := 16
  const TWO_32: int := 0x1_0000_0000
  const TWO_31: int := 0x8000_0000

  /** One inotify_event: the watch it concerns, its event mask, the rename
      cookie and the name field (len bytes, NUL-padded). */
  datatype Record = Record(wd: int, mask: nat, cookie: nat, name: seq<byte>)

  /** A record whose fields fit their 32-bit words. */
  predicate Encodable(r: Record) {
    -TWO_31 <= r.wd < TWO_31 && r.mask < TWO_32 && r.cookie < TWO_32 && |r.name| < TWO_32
  }

  /** A little-endian 32-bit word. */
  function U32(b: seq<byte>): (u: nat)
    requires |b| == 4
    ensures u < TWO_32
  {
    b[0] as int + 256 * (b[1] as int + 256 * (b[2] as int + 256 * b[3] as int))
  }

  function U32Bytes(u: nat): (b: seq<byte>)
    requires u < TWO_32
    ensures |b| == 4
  {
    var q1 := u / 256;
    var q2 := q1 / 256;
    [u % 256, q1 % 256, q2 % 256, q2 / 256]
  }

  /** Splitting lo + 256 * hi at 256 gives lo and hi back. */
  lemma Split256(lo: int, hi: int)
    requires 0 <= lo < 256
    ensures (lo + 256 * hi) % 256 == lo && (lo + 256 * hi) / 256 == hi
  {
  }

  /** Writing a word and reading it back gives the word. */
  lemma U32RoundTrip(u: nat)
    requires u < TWO_32
    ensures U32(U32Bytes(u)) == u
  {
    var q1 := u / 256;
    var q2 := q1 / 256;
    assert u == u % 256 + 256 * q1;
    assert q1 == q1 % 256 + 256 * q2;
    assert q2 == q2 % 256 + 256 * (q2 / 256);
  }

  /** Reading a word and writing it back gives the four bytes. */
  lemma U32BytesOf(b: seq<byte>)
    requires |b| == 4
    ensures U32Bytes(U32(b)) == b
  {
    var hi2 := b[2] as int + 256 * b[3] as int;
    var hi1 := b[1] as int + 256 * hi2;
    Split256(b[0] as int, hi1);
    Split256(b[1] as int, hi2);
    Split256(b[2] as int, b[3] as int);
  }

  /** A 32-bit word read as the signed int of the wd field. */
  function I32(u: nat): (i: int)
    requires u < TWO_32
    ensures -TWO_31 <= i < TWO_31
  {
    if u < TWO_31 then u else u - TWO_32
  }

  function I32Bytes(i: int): (b: seq<byte>)
    requires -TWO_31 <= i < TWO_31
    ensures |b| == 4
  {
    U32Bytes(if i >= 0 then i else i + TWO_32)
  }

  /** The len field of the header at off. */
  function LenAt(buf: seq<byte>, off: nat): nat
    requires off + HEADER_SIZE <= |buf|
  {
    U32(buf[off + 12..off + 16])
  }

  /** Where the record at off ends, going by its header. */
  function NextAt(buf: seq<byte>, off: nat): (next: nat)
    requires off + HEADER_SIZE <= |buf|
    ensures next >= off + HEADER_SIZE
  {
    off + HEADER_SIZE + LenAt(buf, off)
  }

  /** The record held by the bytes e: the header words, then the name. */
  function Decode(e: seq<byte>): Record
    requires |e| >= HEADER_SIZE
  {
    Record(I32(U32(e[0..4])), U32(e[4..8]), U32(e[8..12]), e[HEADER_SIZE..])
  }

  /** The record at off, when its name lies inside the buffer. */
  function RecordAt(buf: seq<byte>, off: nat): Record
    requires off + HEADER_SIZE <= |buf| && NextAt(buf, off) <= |buf|
  {
    Decode(buf[off..NextAt(buf, off)])
  }

  /** The bytes of one record. */
  function Encode(r: Record): (b: seq<byte>)
    requires Encodable(r)
    ensures |b| == HEADER_SIZE + |r.name|
  {
    I32Bytes(r.wd) + U32Bytes(r.mask) + U32Bytes(r.cookie) + U32Bytes(|r.name|) + r.name
  }

  /** Decoding an encoded record gives the record, and its len word is the
      length of its name. */
  lemma DecodeEncode(r: Record)
    requires Encodable(r)
    ensures Decode(Encode(r)) == r
    ensures U32(Encode(r)[12..16]) == |r.name|
  {
    var e := Encode(r);
    var wd := if r.wd >= 0 then r.wd else r.wd + TWO_32;
    assert e[0..4] == U32Bytes(wd);
    assert e[4..8] == U32Bytes(r.mask);
    assert e[8..12] == U32Bytes(r.cookie);
    assert e[12..16] == U32Bytes(|r.name|);
    assert e[HEADER_SIZE..] == r.name;
    U32RoundTrip(wd);
    U32RoundTrip(r.mask);
    U32RoundTrip(r.cookie);
    U32RoundTrip(|r.name|);
  }

  /** Encoding the record held by bytes whose len word matches their length
      gives the bytes back. */
  lemma EncodeDecode(e: seq<byte>)
    requires |e| >= HEADER_SIZE && U32(e[12..16]) == |e| - HEADER_SIZE
    ensures Encodable(Decode(e))
    ensures Encode(Decode(e)) == e
  {
    var r := Decode(e);
    assert I32Bytes(r.wd) == e[0..4] by {
      assert I32Bytes(I32(U32(e[0..4]))) == U32Bytes(U32(e[0..4]));
      U32BytesOf(e[0..4]);
    }
    assert U32Bytes(r.mask) == e[4..8] by { U32BytesOf(e[4..8]); }
    assert U32Bytes(r.cookie) == e[8..12] by { U32BytesOf(e[8..12]); }
    assert U32Bytes(|r.name|) == e[12..16] by { U32BytesOf(e[12..16]); }
    assert e == e[0..4] + e[4..8] + e[8..12] + e[12..16] + e[HEADER_SIZE..];
  }

  /** The middle part of a concatenation, sliced back out. */
  lemma Middle(a: seq<byte>, b: seq<byte>, c: seq<byte>)
    ensures (a + b + c)[|a|..|a| + |b|] == b
  {
  }

  predicate AllEncodable(rs: seq<Record>) {
    forall k :: 0 <= k < |rs| ==> Encodable(rs[k])
  }

  /** The bytes of a run of records, one after the other. */
  function Serialize(rs: seq<Record>): seq<byte>
    requires AllEncodable(rs)
  {
    if rs == [] then [] else Encode(rs[0]) + Serialize(rs[1..])
  }

  /** The walk of handle_inotify as written: a record is handed on as soon
      as its header fits in the n bytes read (the in-loop check compares
      the record's start with n + len and so always holds), and the walk
      steps over header and name until the next header no longer fits.
      The result lists the offsets handed on and where the walk stopped;
      the check after the loop is fatal unless it stopped exactly at n. */
  datatype Visit = Visit(offsets: seq<nat>, end: nat)

  function WalkAsWritten(buf: seq<byte>, off: nat): (v: Visit)
    ensures v.end >= off
    decreases |buf| - off
  {
    if off + HEADER_SIZE > |buf| then Visit([], off)
    else
      var rest := WalkAsWritten(buf, NextAt(buf, off));
      Visit([off] + rest.offsets, rest.end)
  }

  /** The walk with the in-loop check it evidently intends (the record's
      name ends inside the bytes read): the records handed on, in order, and
      whether the buffer was read to its end without a fatal check. */
  datatype Walk = Walk(records: seq<Record>, complete: bool)

  function WalkChecked(buf: seq<byte>, off: nat): Walk
    decreases |buf| - off
  {
    if off + HEADER_SIZE > |buf| then Walk([], off == |buf|)
    else if NextAt(buf, off) > |buf| then Walk([], false)
    else
      var rest := WalkChecked(buf, NextAt(buf, off));
      Walk([RecordAt(buf, off)] + rest.records, rest.complete)
  }

  /** The buffer is tiled from off on: records follow each other without a
      gap and the last one ends exactly at the end of the buffer. */
  predicate Tiles(buf: seq<byte>, off: nat)
    decreases |buf| - off
  {
    off == |buf| ||
    (off + HEADER_SIZE <= |buf| && NextAt(buf, off) <= |buf| && Tiles(buf, NextAt(buf, off)))
  }

  /** The checked walk reads the buffer to its end exactly when the
      records tile it. */
  lemma {:induction false} CompleteIffTiles(buf: seq<byte>, off: nat)
    requires off <= |buf|
    ensures WalkChecked(buf, off).complete <==> Tiles(buf, off)
    decreases |buf| - off
  {
    if off + HEADER_SIZE <= |buf| && NextAt(buf, off) <= |buf| {
      CompleteIffTiles(buf, NextAt(buf, off));
    }
  }

  /** Both walks end the buffer without a fatal check on the same buffers,
      and where they do they hand on the same records. */
  lemma {:induction false} WalksAgree(buf: seq<byte>, off: nat)
    requires off <= |buf|
    ensures (WalkAsWritten(buf, off).end == |buf|) <==> WalkChecked(buf, off).complete
    ensures WalkChecked(buf, off).complete ==>
      var v := WalkAsWritten(buf, off);
      var w := WalkChecked(buf, off);
      |v.offsets| == |w.records| &&
      forall k :: 0 <= k < |v.offsets| ==>
        v.offsets[k] + HEADER_SIZE <= |buf| && NextAt(buf, v.offsets[k]) <= |buf| &&
        RecordAt(buf, v.offsets[k]) == w.records[k]
    decreases |buf| - off
  {
    if off + HEADER_SIZE <= |buf| {
      var next := NextAt(buf, off);
      if next <= |buf| {
        WalksAgree(buf, next);
      } else {
        assert WalkAsWritten(buf, next).end >= next > |buf|;
      }
    }
  }

  /** Serializing records and walking the bytes gives the records back,
      and the walk completes. */
  lemma SerializeRoundTrip(rs: seq<Record>)
    requires AllEncodable(rs)
    ensures WalkChecked(Serialize(rs), 0) == Walk(rs, true)
  {
    var buf := Serialize(rs);
    assert [] + buf == buf;
    WalkAfter([], rs);
  }

  /** The same, for serialized records that follow any prefix. */
  lemma {:induction false} WalkAfter(prefix: seq<byte>, rs: seq<Record>)
    requires AllEncodable(rs)
    ensures WalkChecked(prefix + Serialize(rs), |prefix|) == Walk(rs, true)
    decreases |rs|
  {
    var buf := prefix + Serialize(rs);
    if rs != [] {
      var prefix' := prefix + Encode(rs[0]);
      assert |prefix| + HEADER_SIZE <= |buf| && NextAt(buf, |prefix|) == |prefix'| <= |buf|
        && RecordAt(buf, |prefix|) == rs[0]
        && buf == prefix' + Serialize(rs[1..]) by {
        FirstRecord(prefix, rs);
      }
      assert WalkChecked(buf, |prefix'|) == Walk(rs[1..], true) by {
        WalkAfter(prefix', rs[1..]);
      }
      assert rs == [rs[0]] + rs[1..];
    }
  }

  /** In serialized records after a prefix, the header at the end of the
      prefix reads back as the first record. */
  lemma FirstRecord(prefix: seq<byte>, rs: seq<Record>)
    requires rs != [] && AllEncodable(rs)
    ensures var buf := prefix + Serialize(rs);
      && |prefix| + HEADER_SIZE <= |buf|
      && NextAt(buf, |prefix|) == |prefix| + |Encode(rs[0])| <= |buf|
      && RecordAt(buf, |prefix|) == rs[0]
      && buf == (prefix + Encode(rs[0])) + Serialize(rs[1..])
  {
    assert Encodable(rs[0]);
    assert prefix + Serialize(rs) == prefix + Encode(rs[0]) + Serialize(rs[1..]);
    RecordInMiddle(prefix, rs[0], Serialize(rs[1..]));
  }

  /** An encoded record between any bytes reads back where it starts. */
  lemma RecordInMiddle(prefix: seq<byte>, r: Record, rest: seq<byte>)
    requires Encodable(r)
    ensures var buf := prefix + Encode(r) + rest;
      && |prefix| + HEADER_SIZE <= |buf|
      && NextAt(buf, |prefix|) == |prefix| + |Encode(r)| <= |buf|
      && RecordAt(buf, |prefix|) == r
  {
    var e := Encode(r);
    var buf := prefix + e + rest;
    var p := |prefix|;
    assert buf[p..p + |e|] == e by {
      Middle(prefix, e, rest);
    }
    assert buf[p + 12..p + 16] == e[12..16];
    DecodeEncode(r);
  }

  /** The record read at off is written back as exactly the bytes it was
      read from. */
  lemma EncodeRecordAt(buf: seq<byte>, off: nat)
    requires off + HEADER_SIZE <= |buf| && NextAt(buf, off) <= |buf|
    ensures Encodable(RecordAt(buf, off))
    ensures Encode(RecordAt(buf, off)) == buf[off..NextAt(buf, off)]
  {
    var e := buf[off..NextAt(buf, off)];
    assert e[12..16] == buf[off + 12..off + 16];
    EncodeDecode(e);
  }

  /** The bytes of buf from off on begin with the records rs. */
  predicate ReadFrom(buf: seq<byte>, off: nat, rs: seq<Record>)
    requires AllEncodable(rs)
  {
    off + |Serialize(rs)| <= |buf| && buf[off..off + |Serialize(rs)|] == Serialize(rs)
  }

  /** The records the checked walk hands on are read from the buffer
      itself: written back one after the other they are the bytes from off
      on, all of them when the walk completes. */
  lemma {:induction false} CheckedReadsBuffer(buf: seq<byte>, off: nat)
    requires off <= |buf|
    ensures var rs := WalkChecked(buf, off).records;
      && AllEncodable(rs)
      && ReadFrom(buf, off, rs)
      && (WalkChecked(buf, off).complete ==> off + |Serialize(rs)| == |buf|)
    decreases |buf| - off
  {
    if off + HEADER_SIZE <= |buf| && NextAt(buf, off) <= |buf| {
      var next := NextAt(buf, off);
      var r := RecordAt(buf, off);
      var rest := WalkChecked(buf, next).records;
      CheckedReadsBuffer(buf, next);
      EncodeRecordAt(buf, off);
      ReadCons(buf, off, next, r, rest);
    }
  }

  /** A record read at off followed by records read where it ends are,
      together, read at off. */
  lemma ReadCons(buf: seq<byte>, off: nat, next: nat, r: Record, rest: seq<Record>)
    requires Encodable(r) && AllEncodable(rest)
    requires off <= next <= |buf| && Encode(r) == buf[off..next]
    requires ReadFrom(buf, next, rest)
    ensures AllEncodable([r] + rest)
    ensures ReadFrom(buf, off, [r] + rest)
    ensures off + |Serialize([r] + rest)| == next + |Serialize(rest)|
  {
    var rs := [r] + rest;
    assert rs[1..] == rest;
    var tail := Serialize(rest);
    assert Serialize(rs) == Encode(r) + tail;
    assert buf[off..next + |tail|] == buf[off..next] + buf[next..next + |tail|];
  }

  /** A 16-byte buffer whose header claims a 16-byte name: the walk as
      written hands on a record whose name lies wholly past the bytes read,
      and only afterwards fails its final check. */
  const Overrun: seq<byte> := [1, 0, 0, 0, 0, 1, 0, 0, 0, 0, 0, 0, 16, 0, 0, 0]

  lemma AsWrittenHandsOnOverrun()
    ensures WalkAsWritten(Overrun, 0) == Visit([0], 32)
    ensures NextAt(Overrun, 0) > |Overrun|
  {
    assert Overrun[12..16] == [16, 0, 0, 0];
  }

  /** The checked walk hands nothing on from the same buffer. */
  lemma CheckedRefusesOverrun()
    ensures WalkChecked(Overrun, 0) == Walk([], false)
  {
    assert Overrun[12..16] == [16, 0, 0, 0];
  }
}
