/** The memory map of a process (`ParseMapInfo`, internal/qnxdbg/commands.go): a filter over records of 24
    octets. */
module DsmsgMaps {
  import opened Sequences
  import opened Bytes
  import opened DsmsgAgent
  import opened DsmsgCommands

  const RECORD: nat := 24
  const PAGE: nat := 0x1000
  const MAX_SIZE: nat := 0x100_0000_0000

  datatype MapRecord = MapRecord(pid: int, id: int, vaddr: u64, size: u64)

  datatype MapSegment = MapSegment(vaddr: nat, size: nat)

  function Encode(r: MapRecord): (b: seq<byte>)
    ensures |b| == RECORD
  {
    Le32(r.pid) + Le32(r.id) + Le64(r.vaddr) + Le64(r.size)
  }

  function EncodeAll(rs: seq<MapRecord>): seq<byte> {
    if rs == [] then [] else Encode(rs[0]) + EncodeAll(rs[1..])
  }

  /** A page-aligned address other than zero, and a size other than zero below one tebibyte. */
  predicate Plausible(vaddr: nat, size: nat) {
    vaddr != 0 && vaddr % PAGE == 0 && size != 0 && size < MAX_SIZE
  }

  function Keep(vaddr: nat, size: nat): seq<MapSegment> {
    if Plausible(vaddr, size) then [MapSegment(vaddr, size)] else []
  }

  /** The plausible records of a list, in order. */
  function Segments(rs: seq<MapRecord>): seq<MapSegment> {
    if rs == [] then [] else Keep(rs[0].vaddr, rs[0].size) + Segments(rs[1..])
  }

  function KeepAt(b: seq<byte>, off: nat): seq<MapSegment>
    requires off + RECORD <= |b|
  {
    Keep(FromLittleEndian(b[off + 8..off + 16]), FromLittleEndian(b[off + 16..off + 24]))
  }

  /** What is found in the octets from `off` on. */
  function Parsed(b: seq<byte>, off: nat): seq<MapSegment>
    decreases |b| - off
  {
    if off + RECORD > |b| then [] else KeepAt(b, off) + Parsed(b, off + RECORD)
  }

  method ParseMapInfo(b: seq<byte>) returns (segs: seq<MapSegment>)
    ensures segs == Parsed(b, 0)
  {
    segs := [];
    var off := 0;
    ghost var all := Parsed(b, 0);
    assert [] + all == all;
    while off + RECORD <= |b|
      invariant segs + Parsed(b, off) == all
    {
      var v, s := FromLittleEndian(b[off + 8..off + 16]), FromLittleEndian(b[off + 16..off + 24]);
      Regroup(segs, Keep(v, s), Parsed(b, off + RECORD));
      if v != 0 && v % PAGE == 0 && s != 0 && s < MAX_SIZE {
        segs := segs + [MapSegment(v, s)];
      } else {
        assert segs + [] == segs;
      }
      off := off + RECORD;
    }
    assert segs + [] == segs;
  }

  lemma FieldsOfRecord(before: seq<byte>, ids: seq<byte>, vaddr: seq<byte>, size: seq<byte>, after: seq<byte>)
    requires |ids| == |vaddr| == |size| == 8
    ensures var b, off := before + (ids + vaddr + size) + after, |before|;
      b[off + 8..off + 16] == vaddr && b[off + 16..off + 24] == size
  {
    var b, off := before + (ids + vaddr + size) + after, |before|;
    assert b[off + 8..] == vaddr + (size + after);
    assert b[off + 16..] == size + after;
  }

  lemma FieldsAreKept(before: seq<byte>, ids: seq<byte>, vaddr: seq<byte>, size: seq<byte>, after: seq<byte>)
    requires |ids| == |vaddr| == |size| == 8
    ensures KeepAt(before + (ids + vaddr + size) + after, |before|) ==
      Keep(FromLittleEndian(vaddr), FromLittleEndian(size))
  {
    FieldsOfRecord(before, ids, vaddr, size, after);
  }

  lemma RecordIsFound(before: seq<byte>, r: MapRecord, after: seq<byte>)
    ensures KeepAt(before + Encode(r) + after, |before|) == Keep(r.vaddr, r.size)
  {
    var ids, vaddr, size := FieldsAreEncoded(r);
    FieldsAreKept(before, ids, vaddr, size, after);
  }

  lemma FieldsAreEncoded(r: MapRecord) returns (ids: seq<byte>, vaddr: seq<byte>, size: seq<byte>)
    ensures Encode(r) == ids + vaddr + size && |ids| == |vaddr| == |size| == 8
    ensures FromLittleEndian(vaddr) == r.vaddr && FromLittleEndian(size) == r.size
  {
    ids, vaddr, size := Le32(r.pid) + Le32(r.id), Le64(r.vaddr), Le64(r.size);
    Le64RoundTrip(r.vaddr);
    Le64RoundTrip(r.size);
  }

  /** A reply made of any records and less than one more is parsed to exactly the plausible ones, in
      order. */
  lemma {:induction false} PlausibleRecordsAreFound(before: seq<byte>, rs: seq<MapRecord>, tail: seq<byte>)
    requires |tail| < RECORD
    ensures Parsed(before + EncodeAll(rs) + tail, |before|) == Segments(rs)
    decreases |rs|
  {
    if rs == [] {
      assert before + EncodeAll(rs) + tail == before + tail;
    } else {
      var first, later := Encode(rs[0]), EncodeAll(rs[1..]);
      FirstRecord(before, first, later, tail);
      RecordIsFound(before, rs[0], later + tail);
      PlausibleRecordsAreFound(before + first, rs[1..], tail);
    }
  }

  lemma FirstRecord(before: seq<byte>, first: seq<byte>, later: seq<byte>, tail: seq<byte>)
    ensures before + (first + later) + tail == before + first + (later + tail) == (before + first) + later + tail
  {
  }

  lemma OneRecord(r: MapRecord)
    ensures Parsed(Encode(r), 0) == Keep(r.vaddr, r.size)
  {
    var b, none: seq<byte> := Encode(r), [];
    assert none + b + none == b;
    RecordIsFound(none, r, none);
  }

  /** The mock agent reports one segment. */
  lemma MockMapIsParsed(a: State)
    requires a.pid < TWO_32
    ensures Parsed(MapEntry(a), 0) == [MapSegment(0x40_0000, 0x1000)]
  {
    var r := MapRecord(a.pid, 0, 0x40_0000, 0x1000);
    MockMapIsRecord(a, r);
    OneRecord(r);
    assert Plausible(0x40_0000, 0x1000);
  }

  lemma MockMapIsRecord(a: State, r: MapRecord)
    requires a.pid < TWO_32 && r == MapRecord(a.pid, 0, 0x40_0000, 0x1000)
    ensures MapEntry(a) == Encode(r)
  {
    assert Le32(a.pid) == LittleEndian(a.pid, 4) && Le32(0) == LittleEndian(0, 4);
    assert Le64(0x40_0000) == LittleEndian(0x40_0000, 8) && Le64(0x1000) == LittleEndian(0x1000, 8);
  }
}
