/** kernel/boot/multiboot.c: the Multiboot information header and its memory map. */
module Multiboot {
  import opened Words
  import opened Pmm

  const BOOTLOADER_MAGIC: word := 0x2BADB002
  const INFO_SIZE: nat := 52
  const MIN_PAYLOAD_SIZE: nat := 20

  /** The bytes the boot loader promises; an address outside the domain must never be read. */
  type Memory = map<nat, byte>

  ghost predicate Readable(mem: Memory, start: nat, length: nat) {
    forall k: nat :: start <= k < start + length ==> k in mem
  }

  function Load32(mem: Memory, a: nat): word
    requires Readable(mem, a, 4)
  {
    Pack(mem[a], mem[a + 1], mem[a + 2], mem[a + 3])
  }

  function Load64(mem: Memory, a: nat): quad
    requires Readable(mem, a, 8)
  {
    Load32(mem, a) + WORD_LIMIT * Load32(mem, a + 4)
  }

  // ----- the information header -----

  function MapAddress(mem: Memory, info: nat): word
    requires Readable(mem, info, INFO_SIZE)
  {
    Load32(mem, info + 48)
  }

  function MapLength(mem: Memory, info: nat): word
    requires Readable(mem, info, INFO_SIZE)
  {
    Load32(mem, info + 44)
  }

  /** The header carries both memory fields and names a non-empty map that does not wrap. */
  predicate HeaderAccepted(mem: Memory, info: nat)
    requires Readable(mem, info, INFO_SIZE)
  {
    && Load32(mem, info) % 2 == 1 && Load32(mem, info) / 64 % 2 == 1
    && MapAddress(mem, info) != 0 && MapLength(mem, info) != 0
    && MapAddress(mem, info) + MapLength(mem, info) < WORD_LIMIT
  }

  predicate HeaderAddressed(magic: word, info: word) {
    magic == BOOTLOADER_MAGIC && info != 0 && info + INFO_SIZE < WORD_LIMIT
  }

  /** What the boot loader owes the kernel: a readable header, and a readable map if the header
      names one. */
  ghost predicate Promised(mem: Memory, magic: word, info: word) {
    HeaderAddressed(magic, info) ==>
      && Readable(mem, info, INFO_SIZE)
      && (HeaderAccepted(mem, info) ==> Readable(mem, MapAddress(mem, info), MapLength(mem, info)))
  }

  method ValidateInfo(mem: Memory, magic: word, info: word) returns (ok: bool, address: word, length: word)
    requires Promised(mem, magic, info)
    ensures ok <==> HeaderAddressed(magic, info) && HeaderAccepted(mem, info)
    ensures ok ==> address == MapAddress(mem, info) && length == MapLength(mem, info)
  {
    ok, address, length := false, 0, 0;
    if magic != BOOTLOADER_MAGIC || info == 0 || info > WORD_LIMIT - 1 - INFO_SIZE {
      return;
    }
    var flags := Load32(mem, info);
    address, length := Load32(mem, info + 48), Load32(mem, info + 44);
    if flags % 2 != 1 || flags / 64 % 2 != 1 || address == 0 || length == 0 || address > WORD_LIMIT - 1 - length {
      return;
    }
    ok := true;
  }

  // ----- the memory map -----

  datatype Record = Record(base: quad, length: quad, kind: word) {
    function Span(): Region { Region(base, length) }
  }

  /** A whole, well-formed record starts at cursor and ends no later than end. */
  predicate RecordFits(mem: Memory, cursor: nat, end: nat)
    requires cursor <= end && Readable(mem, cursor, end - cursor)
  {
    && cursor + 4 <= end
    && Load32(mem, cursor) >= MIN_PAYLOAD_SIZE
    && cursor + Load32(mem, cursor) + 4 <= end
    && Load64(mem, cursor + 12) != 0
    && Load64(mem, cursor + 4) + Load64(mem, cursor + 12) < QUAD_LIMIT
  }

  function RecordAt(mem: Memory, cursor: nat): Record
    requires Readable(mem, cursor, 24)
  {
    Record(Load64(mem, cursor + 4), Load64(mem, cursor + 12), Load32(mem, cursor + 20))
  }

  /** Well-formed records follow one another from cursor exactly to end. */
  predicate Tiled(mem: Memory, cursor: nat, end: nat)
    requires cursor <= end && Readable(mem, cursor, end - cursor)
    decreases end - cursor
  {
    cursor == end || (RecordFits(mem, cursor, end) && Tiled(mem, cursor + Load32(mem, cursor) + 4, end))
  }

  function Records(mem: Memory, cursor: nat, end: nat): seq<Record>
    requires cursor <= end && Readable(mem, cursor, end - cursor) && Tiled(mem, cursor, end)
    decreases end - cursor
  {
    if cursor == end then [] else [RecordAt(mem, cursor)] + Records(mem, cursor + Load32(mem, cursor) + 4, end)
  }

  /** The tiling said without recursion: cut points from start to end, one record per gap. */
  ghost predicate CutInto(mem: Memory, start: nat, end: nat, cuts: seq<nat>) {
    && |cuts| >= 1 && cuts[0] == start && cuts[|cuts| - 1] == end
    && forall i: nat :: i + 1 < |cuts| ==> RecordCut(mem, cuts, i)
  }

  ghost predicate RecordCut(mem: Memory, cuts: seq<nat>, i: nat)
    requires i + 1 < |cuts|
  {
    RecordSpans(mem, cuts[i], cuts[i + 1])
  }

  /** The bytes from a up to b are one well-formed record. */
  ghost predicate RecordSpans(mem: Memory, a: nat, b: nat) {
    && a + 4 + MIN_PAYLOAD_SIZE <= b && Readable(mem, a, b - a) && b == a + 4 + Load32(mem, a)
    && RecordAt(mem, a).length != 0 && RecordAt(mem, a).base + RecordAt(mem, a).length < QUAD_LIMIT
  }

  ghost predicate RecordsMatch(mem: Memory, records: seq<Record>, cuts: seq<nat>) {
    && |cuts| == |records| + 1
    && forall i: nat :: i < |records| ==> Readable(mem, cuts[i], 24) && records[i] == RecordAt(mem, cuts[i])
  }

  lemma {:induction false} TilingHasCuts(mem: Memory, start: nat, end: nat) returns (cuts: seq<nat>)
    requires start <= end && Readable(mem, start, end - start) && Tiled(mem, start, end)
    ensures CutInto(mem, start, end, cuts) && RecordsMatch(mem, Records(mem, start, end), cuts)
    decreases end - start
  {
    if start == end {
      cuts := [start];
    } else {
      var next := start + Load32(mem, start) + 4;
      var rest := TilingHasCuts(mem, next, end);
      cuts := [start] + rest;
      CutsExtend(mem, start, next, end, rest);
      RecordsExtend(mem, start, Records(mem, next, end), rest);
    }
  }

  lemma CutsExtend(mem: Memory, start: nat, next: nat, end: nat, rest: seq<nat>)
    requires RecordSpans(mem, start, next) && CutInto(mem, next, end, rest)
    ensures CutInto(mem, start, end, [start] + rest)
  {
    var cuts := [start] + rest;
    forall i: nat | i + 1 < |cuts| ensures RecordCut(mem, cuts, i) {
      if i > 0 {
        CutShifts(mem, start, rest, i - 1);
      }
    }
  }

  lemma CutShifts(mem: Memory, start: nat, rest: seq<nat>, i: nat)
    requires i + 1 < |rest| && RecordCut(mem, rest, i)
    ensures RecordCut(mem, [start] + rest, i + 1)
  {
    var cuts := [start] + rest;
    assert cuts[i + 1] == rest[i] && cuts[i + 2] == rest[i + 1];
  }

  lemma RecordsExtend(mem: Memory, start: nat, records: seq<Record>, rest: seq<nat>)
    requires Readable(mem, start, 24) && RecordsMatch(mem, records, rest)
    ensures RecordsMatch(mem, [RecordAt(mem, start)] + records, [start] + rest)
  {
    var r := RecordAt(mem, start);
    forall i: nat | i < |records| + 1
      ensures Readable(mem, ([start] + rest)[i], 24) && ([r] + records)[i] == RecordAt(mem, ([start] + rest)[i])
    {
      if i > 0 {
        assert ([r] + records)[i] == records[i - 1] && ([start] + rest)[i] == rest[i - 1];
      }
    }
  }

  lemma {:induction false} CutsAreInOrder(mem: Memory, start: nat, end: nat, cuts: seq<nat>)
    requires CutInto(mem, start, end, cuts)
    ensures start <= end && Readable(mem, start, end - start)
    ensures |cuts| > 1 ==> start < cuts[1] <= end && CutInto(mem, cuts[1], end, cuts[1..])
    decreases |cuts|
  {
    if |cuts| > 1 {
      var rest := cuts[1..];
      forall i: nat | i + 1 < |rest| ensures RecordCut(mem, rest, i) {
        assert RecordCut(mem, cuts, i + 1);
      }
      assert RecordCut(mem, cuts, 0);
      CutsAreInOrder(mem, cuts[1], end, rest);
    }
  }

  lemma {:induction false} CutsGiveTiling(mem: Memory, start: nat, end: nat, cuts: seq<nat>)
    requires CutInto(mem, start, end, cuts)
    ensures start <= end && Readable(mem, start, end - start) && Tiled(mem, start, end)
    decreases |cuts|
  {
    CutsAreInOrder(mem, start, end, cuts);
    if |cuts| > 1 {
      assert RecordCut(mem, cuts, 0);
      CutsGiveTiling(mem, cuts[1], end, cuts[1..]);
    }
  }

  /** One turn of the walk: the checks on the record at cursor. */
  method ReadRecord(mem: Memory, cursor: nat, end: nat) returns (ok: bool, record: Record, size: nat)
    requires cursor < end < WORD_LIMIT && Readable(mem, cursor, end - cursor)
    ensures ok <==> RecordFits(mem, cursor, end)
    ensures ok ==> record == RecordAt(mem, cursor) && size == Load32(mem, cursor) + 4
  {
    ok, record, size := false, Record(0, 0, 0), 0;
    var remaining := end - cursor;
    if remaining < 4 {
      return;
    }
    var payload := Load32(mem, cursor);
    if payload < MIN_PAYLOAD_SIZE || payload > WORD_LIMIT - 1 - 4 {
      return;
    }
    size := payload + 4;
    if size > remaining {
      return;
    }
    record := RecordAt(mem, cursor);
    if record.length == 0 || record.base > QUAD_LIMIT - 1 - record.length {
      return;
    }
    ok := true;
  }

  /** The walk so far: visited are the records before cursor, and the map is tiled exactly when
      what is left of it is. */
  ghost predicate Walked(mem: Memory, start: nat, cursor: nat, end: nat, visited: seq<Record>)
    requires start <= cursor <= end && Readable(mem, start, end - start)
  {
    && (Tiled(mem, start, end) <==> Tiled(mem, cursor, end))
    && (Tiled(mem, start, end) ==> visited + Records(mem, cursor, end) == Records(mem, start, end))
  }

  lemma WalkStep(mem: Memory, start: nat, cursor: nat, end: nat, visited: seq<Record>, record: Record, next: nat)
    requires start <= cursor < end && Readable(mem, start, end - start) && Walked(mem, start, cursor, end, visited)
    requires RecordFits(mem, cursor, end) && record == RecordAt(mem, cursor) && next == cursor + Load32(mem, cursor) + 4
    ensures Walked(mem, start, next, end, visited + [record])
  {
    TiledStep(mem, cursor, end);
    if Tiled(mem, start, end) {
      PrefixMoves(visited, record, Records(mem, next, end));
    }
  }

  lemma WalkStop(mem: Memory, start: nat, cursor: nat, end: nat, visited: seq<Record>)
    requires start <= cursor < end && Readable(mem, start, end - start) && Walked(mem, start, cursor, end, visited)
    requires !RecordFits(mem, cursor, end)
    ensures !Tiled(mem, start, end)
  {
    TiledStep(mem, cursor, end);
  }

  lemma TiledStep(mem: Memory, cursor: nat, end: nat)
    requires cursor < end && Readable(mem, cursor, end - cursor)
    ensures !RecordFits(mem, cursor, end) ==> !Tiled(mem, cursor, end)
    ensures RecordFits(mem, cursor, end) ==>
            (Tiled(mem, cursor, end) <==> Tiled(mem, cursor + Load32(mem, cursor) + 4, end))
    ensures Tiled(mem, cursor, end) ==>
              Records(mem, cursor, end) == [RecordAt(mem, cursor)] + Records(mem, cursor + Load32(mem, cursor) + 4, end)
  {
  }

  lemma PrefixMoves(visited: seq<Record>, r: Record, rest: seq<Record>)
    ensures visited + ([r] + rest) == (visited + [r]) + rest
  {
  }

  lemma WalkEnd(mem: Memory, start: nat, end: nat, visited: seq<Record>)
    requires start <= end && Readable(mem, start, end - start) && Walked(mem, start, end, end, visited)
    ensures Tiled(mem, start, end) && visited == Records(mem, start, end)
  {
  }

  /** One turn of the first pass, with count records already seen. */
  method NextRecord(mem: Memory, cursor: nat, end: nat, count: nat) returns (ok: bool, record: Record, next: nat)
    requires cursor < end < WORD_LIMIT && Readable(mem, cursor, end - cursor)
    ensures ok <==> RecordFits(mem, cursor, end) && count != WORD_LIMIT - 1
    ensures ok ==>
            record == RecordAt(mem, cursor) && next == cursor + Load32(mem, cursor) + 4 && cursor + 24 <= next <= end
  {
    var fits, size;
    fits, record, size := ReadRecord(mem, cursor, end);
    ok, next := fits && count != WORD_LIMIT - 1, cursor + size;
  }

  /** The first pass: accepts exactly a tiled map and counts its records. */
  method CheckMap(mem: Memory, start: nat, end: nat) returns (ok: bool, count: nat)
    requires start < end < WORD_LIMIT && Readable(mem, start, end - start)
    ensures ok <==> Tiled(mem, start, end)
    ensures ok ==> count == |Records(mem, start, end)|
  {
    var cursor := start;
    ghost var visited: seq<Record> := [];
    count := 0;
    while cursor < end
      invariant start <= cursor <= end && Walked(mem, start, cursor, end, visited) && count == |visited|
      invariant 24 * count <= cursor - start && (count == 0 ==> cursor == start)
    {
      var fits, record, next := NextRecord(mem, cursor, end, count);
      if !fits {
        WalkStop(mem, start, cursor, end, visited);
        return false, 0;
      }
      WalkStep(mem, start, cursor, end, visited, record, next);
      count := count + 1;
      visited := visited + [record];
      cursor := next;
    }
    WalkEnd(mem, start, end, visited);
    ok := count != 0;
  }

  // ----- the public queries -----

  ghost predicate Accepted(mem: Memory, magic: word, info: word)
    requires Promised(mem, magic, info)
  {
    && HeaderAddressed(magic, info) && HeaderAccepted(mem, info)
    && Tiled(mem, MapAddress(mem, info), MapAddress(mem, info) + MapLength(mem, info))
  }

  ghost function MapRecords(mem: Memory, magic: word, info: word): seq<Record>
    requires Promised(mem, magic, info) && Accepted(mem, magic, info)
  {
    Records(mem, MapAddress(mem, info), MapAddress(mem, info) + MapLength(mem, info))
  }

  /** Header checks, then the whole map, before anything is reported. */
  method CheckInfo(mem: Memory, magic: word, info: word) returns (ok: bool, address: word, length: word, count: nat)
    requires Promised(mem, magic, info)
    ensures ok <==> Accepted(mem, magic, info)
    ensures ok ==>
            && address == MapAddress(mem, info) && length == MapLength(mem, info)
            && length != 0 && address + length < WORD_LIMIT
    ensures ok ==> Readable(mem, address, length) && Tiled(mem, address, address + length)
    ensures ok ==>
            && Records(mem, address, address + length) == MapRecords(mem, magic, info)
            && count == |MapRecords(mem, magic, info)|
  {
    count := 0;
    ok, address, length := ValidateInfo(mem, magic, info);
    if ok {
      ok, count := CheckMap(mem, address, address + length);
    }
  }

  datatype Summary = Summary(lowerKib: word, upperKib: word, entryCount: nat)

  /** A refused buffer leaves the caller's summary alone. */
  method Parse(mem: Memory, magic: word, info: word, output: Summary) returns (ok: bool, summary: Summary)
    requires Promised(mem, magic, info)
    ensures ok <==> Accepted(mem, magic, info)
    ensures ok ==> summary == Summary(Load32(mem, info + 4), Load32(mem, info + 8), |MapRecords(mem, magic, info)|)
    ensures !ok ==> summary == output
  {
    var address, length, count;
    ok, address, length, count := CheckInfo(mem, magic, info);
    summary := output;
    if ok {
      summary := Summary(Load32(mem, info + 4), Load32(mem, info + 8), count);
    }
  }

  datatype OwnedRanges = OwnedRanges(infoAddress: word, infoLength: word, mapAddress: word, mapLength: word)

  method GetOwnedRanges(mem: Memory, magic: word, info: word, output: OwnedRanges)
    returns (ok: bool, owned: OwnedRanges)
    requires Promised(mem, magic, info)
    ensures ok <==> Accepted(mem, magic, info)
    ensures owned == if ok then OwnedRanges(info, INFO_SIZE, MapAddress(mem, info), MapLength(mem, info)) else output
  {
    var address, length, count;
    ok, address, length, count := CheckInfo(mem, magic, info);
    owned := if ok then OwnedRanges(info, INFO_SIZE, address, length) else output;
  }
}
