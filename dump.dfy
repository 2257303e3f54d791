/** The older diagnostic parsers of the dump tool (`tools/dump_5th_fleet.py`): its pointer
    pair reader, its region parser, its section extents and its unit-frame filter. They
    read the same map files as the editor but differ from it in the details noted on each
    member: a short pointer table yields fewer pairs instead of an error, region fields are
    read until at most 32 bytes remain, adjacency comes from the last matching field, and
    unit frames are kept only when their template exists. */
module Dump {
  import opened Bytes
  import Region
  import Units
  import MapFiles
  import MapObjects

  // ---------------------------------------------------------------------------
  // chunk_pairs

  /** How many pairs `chunk_pairs` reads: `count`, or fewer when the data ends first, and
      then exactly the pairs that fit. */
  function PairsAvailable(size: nat, off: nat, count: nat): (n: nat)
    ensures n <= count
    ensures n > 0 ==> off + 4 * n <= size
    ensures n < count ==> size < off + 4 * n + 4
  {
    if off + 4 * count <= size then count
    else if size < off then 0
    else (size - off) / 4
  }

  /** The (start, count) pair stored as two little-endian words at `p`. */
  function PairAt(data: seq<byte>, p: nat): MapFiles.PointerPair
    requires p + 4 <= |data|
  {
    MapFiles.PointerPair(WordAt(data, p), WordAt(data, p + 2))
  }

  /** `chunk_pairs(data, offset, count)`: pair `i` is the pair at `offset + 4i`, for every
      `i` below `count` whose pair lies wholly inside the data. */
  function ChunkPairs(data: seq<byte>, off: nat, count: nat): (r: seq<MapFiles.PointerPair>)
    ensures |r| == PairsAvailable(|data|, off, count)
  {
    var n := PairsAvailable(|data|, off, count);
    seq(n, i requires 0 <= i < n => PairAt(data, off + 4 * i))
  }

  /** The loop of `chunk_pairs`: it stops at the first pair that would run past the end. */
  method ReadChunkPairs(data: seq<byte>, off: nat, count: nat) returns (pairs: seq<MapFiles.PointerPair>)
    ensures pairs == ChunkPairs(data, off, count)
  {
    pairs := [];
    for idx := 0 to count
      invariant |pairs| == idx
      invariant forall i :: 0 <= i < idx ==> off + 4 * i + 4 <= |data| && pairs[i] == PairAt(data, off + 4 * i)
    {
      var start := off + idx * 4;
      if start + 4 > |data| {
        return;
      }
      pairs := pairs + [PairAt(data, start)];
    }
  }

  /** Where the editor's table reader succeeds, `chunk_pairs` reads the same pairs; where
      the editor raises, `chunk_pairs` returns fewer pairs than asked for. */
  lemma ChunkPairsAgree(data: seq<byte>, off: nat, n: nat)
    ensures MapFiles.ReadPairs(data, off, n).Ok? ==> ChunkPairs(data, off, n) == MapFiles.ReadPairs(data, off, n).value
    ensures MapFiles.ReadPairs(data, off, n).Err? ==> |ChunkPairs(data, off, n)| < n
  {
    MapFiles.ReadPairsSpec(data, off, n);
  }

  // ---------------------------------------------------------------------------
  // parse_region_block

  /** The fields the dump parser reads from `off`: one NUL-terminated string after another
      while more than 32 bytes remain from the cursor. A field may run on into the tail. */
  function FieldsFrom(block: seq<byte>, off: nat): (r: seq<seq<byte>>)
    decreases |block| - off
  {
    if off >= |block| || |block| - off <= 32 then []
    else
      var (f, next) := ReadCString(block, off);
      [f] + FieldsFrom(block, next)
  }

  /** The cursor after the field loop. */
  function FieldsEnd(block: seq<byte>, off: nat): nat
    decreases |block| - off
  {
    if off >= |block| || |block| - off <= 32 then off
    else FieldsEnd(block, ReadCString(block, off).1)
  }

  /** The fields, each followed by its terminating NUL. */
  function Joined(fs: seq<seq<byte>>): seq<byte>
  {
    if fs == [] then [] else fs[0] + [0] + Joined(fs[1..])
  }

  /** The fields hold no NUL and, each followed by a NUL, spell out the block from `off` to
      the final cursor (with one NUL too many when the last field runs to the end of the
      block unterminated); the loop ends with at most 32 bytes left. */
  lemma {:induction false} FieldsCover(block: seq<byte>, off: nat)
    requires off <= |block|
    ensures off <= FieldsEnd(block, off) <= |block| <= FieldsEnd(block, off) + 32 || FieldsEnd(block, off) == off
    ensures forall k :: 0 <= k < |FieldsFrom(block, off)| ==> 0 !in FieldsFrom(block, off)[k]
    ensures var e := FieldsEnd(block, off);
            Joined(FieldsFrom(block, off)) == block[off..e]
            || (e == |block| && Joined(FieldsFrom(block, off)) == block[off..e] + [0])
    decreases |block| - off
  {
    if !(off >= |block| || |block| - off <= 32) {
      var (f, next) := ReadCString(block, off);
      ReadCStringSplit(block, off);
      FieldsCover(block, next);
      var rest := FieldsFrom(block, next);
      var e := FieldsEnd(block, off);
      assert FieldsFrom(block, off) == [f] + rest;
      assert Joined([f] + rest) == f + [0] + Joined(rest) by {
        assert ([f] + rest)[1..] == rest;
      }
      if IndexOf(block, 0, off).Some? {
        assert block[off..next] == f + [0];
        SliceJoin(block, off, next, e);
      } else {
        assert rest == [] && e == |block|;
      }
    }
  }

  /** The read loop over the fields, as the dump parser walks its cursor. */
  method ReadFields(block: seq<byte>, start: nat) returns (fields: seq<seq<byte>>, offset: nat)
    ensures fields == FieldsFrom(block, start) && offset == FieldsEnd(block, start)
  {
    fields := [];
    offset := start;
    while offset < |block|
      invariant fields + FieldsFrom(block, offset) == FieldsFrom(block, start)
      invariant FieldsEnd(block, offset) == FieldsEnd(block, start)
      decreases |block| - offset
    {
      if |block| - offset <= 32 {
        break;
      }
      var (f, next) := ReadCString(block, offset);
      assert FieldsFrom(block, offset) == [f] + FieldsFrom(block, next);
      fields := fields + [f];
      offset := next;
    }
  }

  /** The last field below `n` whose text `parse_region_block` takes as adjacency codes
      (non-empty, upper case, of even length), scanning the fields in reverse. */
  function LastAdjacency(fields: seq<seq<byte>>, n: nat): (r: Option<nat>)
    requires n <= |fields|
    ensures r.Some? ==> r.value < n && Region.IsAdjacencyText(fields[r.value])
    ensures r.Some? ==> forall j :: r.value < j < n ==> !Region.IsAdjacencyText(fields[j])
    ensures r.None? ==> forall j :: 0 <= j < n ==> !Region.IsAdjacencyText(fields[j])
  {
    if n == 0 then None
    else if Region.IsAdjacencyText(fields[n - 1]) then Some(n - 1)
    else LastAdjacency(fields, n - 1)
  }

  /** The adjacency codes of the dump parser: the last matching field split into
      two-character codes, or none. */
  function AdjacencyOf(fields: seq<seq<byte>>): Option<seq<seq<byte>>>
  {
    match LastAdjacency(fields, |fields|)
    case None => None
    case Some(j) => Some(Region.Pairs(fields[j]))
  }

  /** The `for field in reversed(fields)` loop. */
  method FindAdjacency(fields: seq<seq<byte>>) returns (codes: Option<seq<seq<byte>>>)
    ensures codes == AdjacencyOf(fields)
  {
    var i := |fields|;
    while i > 0
      invariant 0 <= i <= |fields|
      invariant LastAdjacency(fields, |fields|) == LastAdjacency(fields, i)
    {
      var text := fields[i - 1];
      if text != [] && |text| % 2 == 0 && IsUpperText(text) {
        return Some(Region.Pairs(text));
      }
      i := i - 1;
    }
    return None;
  }

  /** `str.isprintable()` for one latin-1 character: not a control character (0x00-0x1F,
      0x7F-0x9F), not the no-break space 0xA0 and not the soft hyphen 0xAD. */
  predicate Printable(b: byte)
  {
    (0x20 <= b < 0x7F) || (0xA1 <= b && b != 0xAD)
  }

  /** The label hint: the first ten tail bytes with trailing NULs stripped, kept when it is
      longer than one character and wholly printable. */
  function LabelHint(tail: seq<byte>): (r: Option<seq<byte>>)
    requires |tail| == 32
    ensures r.Some? ==> 1 < |r.value| <= 10 && r.value == tail[..|r.value|] && r.value[|r.value| - 1] != 0
    ensures r.Some? ==> forall i :: 0 <= i < |r.value| ==> Printable(r.value[i])
    ensures r.None? <==> (|RStrip(tail[..10], {0})| <= 1
                          || exists i :: 0 <= i < |RStrip(tail[..10], {0})| && !Printable(RStrip(tail[..10], {0})[i]))
  {
    var hint := RStrip(tail[..10], {0});
    RStripSpec(tail[..10], {0});
    if 1 < |hint| && forall i :: 0 <= i < |hint| ==> Printable(hint[i]) then Some(hint) else None
  }

  /** A PCX rectangle: origin and width on the whole-map image. */
  datatype PcxBox = PcxBox(x: int, y: int, width: int)

  /** `PCX_PANEL_OFFSETS`. */
  const PanelOffsets: map<byte, (int, int)> := map[0 := (184, 0), 1 := (48, 8)]

  /** PCX coordinates exist only for panels 0 and 1, shifted by (184, 0) and (48, 8). */
  function PcxOf(p: Region.MapPosition): (r: Option<PcxBox>)
    ensures r.Some? <==> p.panel == 0 || p.panel == 1
    ensures p.panel == 0 ==> r == Some(PcxBox(184 + p.xRaw, p.yRaw, p.widthRaw))
    ensures p.panel == 1 ==> r == Some(PcxBox(48 + p.xRaw, 8 + p.yRaw, p.widthRaw))
  {
    if p.panel in PanelOffsets then
      var (dx, dy) := PanelOffsets[p.panel];
      Some(PcxBox(dx + p.xRaw, dy + p.yRaw, p.widthRaw))
    else None
  }

  datatype DumpRegion = DumpRegion(
    index: int,
    name: seq<byte>,
    fields: seq<seq<byte>>,
    tailWords: seq<u16>,
    labelHint: Option<seq<byte>>,
    position: Region.MapPosition,
    pcx: Option<PcxBox>,
    adjacentCodes: Option<seq<seq<byte>>>)

  /** The dump tool's `parse_region_block`: the name up to the first NUL, the fields after
      it, the sixteen words of the last 32 bytes and what it derives from them;
      `struct.error` when the block is shorter than 32 bytes. */
  function ParseDumpRegion(block: seq<byte>, index: int): (r: Result<DumpRegion>)
    ensures r.Ok? <==> |block| >= 32
  {
    if |block| < 32 then Err(Region.TailTooShort)
    else
      var split := ReadCString(block, 0);
      var fields := FieldsFrom(block, split.1);
      var tail := block[|block| - 32..];
      var words := UnpackWords(tail);
      var pos := Region.MapPosition(LowByte(words[7]), HighByte(words[5]), HighByte(words[6]), HighByte(words[7]));
      Ok(DumpRegion(index, split.0, fields, words, LabelHint(tail), pos, PcxOf(pos), AdjacencyOf(fields)))
  }

  /** The dump tool's `parse_region_block`, step by step. */
  method ParseRegionBlock(block: seq<byte>, index: int) returns (r: Result<DumpRegion>)
    ensures r == ParseDumpRegion(block, index)
  {
    var (name, offset) := ReadCString(block, 0);
    var fields, _ := ReadFields(block, offset);
    if |block| < 32 {
      return Err(Region.TailTooShort);
    }
    var tail := block[|block| - 32..];
    var words := UnpackWords(tail);
    var position := Region.MapPosition(LowByte(words[7]), HighByte(words[5]), HighByte(words[6]), HighByte(words[7]));
    var adjacency := FindAdjacency(fields);
    r := Ok(DumpRegion(index, name, fields, words, LabelHint(tail), position, PcxOf(position), adjacency));
  }

  /** Tail word `k` is the little-endian word `32 - 2k` bytes before the end, and the map
      position the dump reports is the one the editor's `map_position` reads from the same
      words. */
  lemma DumpRegionTail(block: seq<byte>, index: int, k: nat)
    requires |block| >= 32 && k < 16
    ensures ParseDumpRegion(block, index).value.tailWords[k] == WordAt(block, |block| - 32 + 2 * k)
    ensures Region.MapPositionOf(ParseDumpRegion(block, index).value.tailWords)
            == Some(ParseDumpRegion(block, index).value.position)
  {
    var tail := block[|block| - 32..];
    UnpackWordsAt(tail, k);
    assert tail[2 * k] == block[|block| - 32 + 2 * k] && tail[2 * k + 1] == block[|block| - 32 + 2 * k + 1];
  }

  /** The name holds no NUL; the adjacency codes, when present, are the two-character split
      of a field that is adjacency text and no later field is. */
  lemma DumpRegionAdjacency(block: seq<byte>, index: int)
    requires |block| >= 32
    ensures var d := ParseDumpRegion(block, index).value;
            0 !in d.name
            && (d.adjacentCodes.None? <==> forall j :: 0 <= j < |d.fields| ==> !Region.IsAdjacencyText(d.fields[j]))
            && (d.adjacentCodes.Some? ==>
                  exists j :: 0 <= j < |d.fields| && Region.IsAdjacencyText(d.fields[j])
                              && d.adjacentCodes.value == Region.Pairs(d.fields[j])
                              && forall l :: j < l < |d.fields| ==> !Region.IsAdjacencyText(d.fields[l]))
  {
    var d := ParseDumpRegion(block, index).value;
    var last := LastAdjacency(d.fields, |d.fields|);
    if last.Some? {
      var j := last.value;
      assert Region.IsAdjacencyText(d.fields[j]) && d.adjacentCodes.value == Region.Pairs(d.fields[j]);
    }
  }

  // ---------------------------------------------------------------------------
  // Section extents in parse_map_file

  /** A pointer-table section as the dump reports it. */
  datatype Section = Section(index: nat, start: u16, count: u16, absOffset: nat, data: seq<byte>)

  /** `actual_len`: the gap from `abs` to `next` clipped to the data, or, when that gap is
      empty, `min(count, len(data) - abs)`. */
  function SectionLength(size: nat, abs: nat, next: nat, count: nat): (r: int)
    ensures abs + r >= 0
  {
    var gap := (if size < next then size else next) - abs;
    if gap <= 0 then (if count < size - abs then count else size - abs) else gap
  }

  /** Section `i`: the bytes `data[abs : abs + actual_len]`. */
  function SectionAt(data: seq<byte>, base: nat, pairs: seq<MapFiles.PointerPair>, i: nat): Section
    requires i < |pairs|
  {
    var abs := base + pairs[i].start;
    var next := MapFiles.ChunkEnd(data, MapFiles.AbsStarts(base, pairs), abs);
    var len := SectionLength(|data|, abs, next, pairs[i].count);
    Section(i, pairs[i].start, pairs[i].count, abs, Slice(data, abs, abs + len))
  }

  function Sections(data: seq<byte>, base: nat, pairs: seq<MapFiles.PointerPair>): (r: seq<Section>)
    ensures |r| == |pairs|
  {
    seq(|pairs|, i requires 0 <= i < |pairs| => SectionAt(data, base, pairs, i))
  }

  /** The fallback to `count` never changes a section: the gap is empty only when the
      section starts at or past the end of the data, and then the slice is empty anyway.
      So the dump reports exactly the bytes the editor's `load` gives the entry. */
  lemma SectionFallbackInert(data: seq<byte>, base: nat, pairs: seq<MapFiles.PointerPair>, i: nat)
    requires i < |pairs|
    ensures SectionAt(data, base, pairs, i).data == MapFiles.EntryAt(data, base, pairs, i).data
    ensures base + pairs[i].start < |data| ==> |SectionAt(data, base, pairs, i).data| > 0
  {
    var starts := MapFiles.AbsStarts(base, pairs);
    var abs := base + pairs[i].start;
    var next := MapFiles.ChunkEnd(data, starts, abs);
    MapFiles.LeastAboveSpec(starts, abs);
    if abs < |data| {
      assert next > abs;
    }
  }

  /** The section loop of `parse_map_file`, the next-start lookup included. */
  method ReadSections(data: seq<byte>, base: nat, pairs: seq<MapFiles.PointerPair>) returns (sections: seq<Section>)
    ensures sections == Sections(data, base, pairs)
  {
    var starts := MapFiles.AbsStarts(base, pairs);
    sections := [];
    for idx := 0 to |pairs|
      invariant |sections| == idx
      invariant forall i :: 0 <= i < idx ==> sections[i] == SectionAt(data, base, pairs, i)
    {
      var (start, count) := (pairs[idx].start, pairs[idx].count);
      var abs := base + start;
      var found := MapObjects.NextStart(starts, abs);
      var next := if found.Some? then found.value else |data|;
      assert next == MapFiles.ChunkEnd(data, starts, abs);
      var len := SectionLength(|data|, abs, next, count);
      var section := Section(idx, start, count, abs, Slice(data, abs, abs + len));
      assert section == SectionAt(data, base, pairs, idx);
      sections := sections + [section];
    }
  }

  // ---------------------------------------------------------------------------
  // The data base of parse_map_file

  /** Every region record `parse_map_file` reads holds the 32-byte tail its
      `parse_region_block` unpacks. */
  predicate RecordsHoldTails(data: seq<byte>, count: nat)
  {
    forall i :: 0 <= i < count ==> ParseDumpRegion(MapFiles.RegionBlock(data, i), i).Ok?
  }

  /** `pointer_data_base`: the pointer table starts at `2 + 65 * count`, and the sections
      are measured from the end of the pairs `chunk_pairs` actually read there. */
  function DumpBase(data: seq<byte>, count: nat): (r: nat)
    ensures 2 + 65 * count <= r <= 2 + 65 * count + 4 * MapFiles.PointerSlots
  {
    var off := 2 + 65 * count;
    off + 4 * |ChunkPairs(data, off, MapFiles.PointerSlots)|
  }

  /** `parse_map_file` as far as its sections: the region count, the region records (the
      first record without its tail raises `struct.error`), the pointer table read with
      `chunk_pairs`, and one section per pair read, measured from `pointer_data_base`. */
  function DumpSectionsOf(data: seq<byte>): (r: Result<seq<Section>>)
    ensures r.Ok? <==> 2 <= |data| && RecordsHoldTails(data, WordAt(data, 0))
    ensures r.Ok? ==> |r.value| <= MapFiles.PointerSlots
  {
    match ReadWord(data, 0)
    case Err(m) => Err(m)
    case Ok(w) =>
      if !RecordsHoldTails(data, w.0) then Err(Region.TailTooShort)
      else
        var off := 2 + 65 * w.0;
        var pairs := ChunkPairs(data, off, MapFiles.PointerSlots);
        Ok(Sections(data, DumpBase(data, w.0), pairs))
  }

  /** The region loop of `parse_map_file`: the records are parsed in order, and the first
      one without its tail raises. */
  method ReadRecords(data: seq<byte>, count: nat) returns (ok: bool)
    ensures ok == RecordsHoldTails(data, count)
  {
    var offset := 2;
    for idx := 0 to count
      invariant offset == 2 + 65 * idx
      invariant RecordsHoldTails(data, idx)
    {
      var block := Slice(data, offset, offset + 65);
      assert block == MapFiles.RegionBlock(data, idx);
      var region := ParseRegionBlock(block, idx);
      if region.Err? {
        return false;
      }
      offset := offset + 65;
    }
    return true;
  }

  /** The opening of `parse_map_file`: the count word, the region loop, `chunk_pairs` and
      the section loop. */
  method ParseMapSections(data: seq<byte>) returns (r: Result<seq<Section>>)
    ensures r == DumpSectionsOf(data)
  {
    var w := ReadWord(data, 0);
    if w.Err? {
      return Err(w.message);
    }
    var count: nat := w.value.0;
    var ok := ReadRecords(data, count);
    if !ok {
      return Err(Region.TailTooShort);
    }
    var offset: nat := 2 + 65 * count;
    var pairs := ReadChunkPairs(data, offset, MapFiles.PointerSlots);
    var base := offset + |pairs| * 4;
    var sections := ReadSections(data, base, pairs);
    r := Ok(sections);
  }

  /** The dump and the editor refuse the same region records: both need each record's
      32-byte tail. */
  lemma RecordsAgree(data: seq<byte>, count: nat)
    ensures RecordsHoldTails(data, count) <==> MapFiles.ParseRegions(data, count).Ok?
  {
    MapFiles.ParseRegionsSpec(data, count);
  }

  /** The sections of a file the dump gets through are those of the pairs `chunk_pairs`
      reads after the region records, measured from `pointer_data_base`. */
  lemma DumpSectionsOk(data: seq<byte>, count: nat, pairs: seq<MapFiles.PointerPair>)
    requires 2 <= |data| && count == WordAt(data, 0) && RecordsHoldTails(data, count)
    requires pairs == ChunkPairs(data, 2 + 65 * count, MapFiles.PointerSlots)
    ensures DumpSectionsOf(data) == Ok(Sections(data, DumpBase(data, count), pairs))
  {
  }

  /** Where the editor reads the regions and all sixteen pairs, the dump reads the same
      pairs, so its data base is the editor's `pointer_table_offset + 64`, and each section
      holds the data of the editor's entry with the same index. */
  lemma DumpSectionsOfParts(data: seq<byte>, count: nat, pairs: seq<MapFiles.PointerPair>, base: nat)
    requires 2 <= |data| && count == WordAt(data, 0)
    requires MapFiles.ParseRegions(data, count).Ok?
    requires MapFiles.ReadPairs(data, 2 + 65 * count, MapFiles.PointerSlots).Ok?
    requires pairs == MapFiles.ReadPairs(data, 2 + 65 * count, MapFiles.PointerSlots).value
    requires base == 2 + 65 * count + 4 * MapFiles.PointerSlots
    ensures DumpBase(data, count) == base
    ensures DumpSectionsOf(data) == Ok(Sections(data, base, pairs))
    ensures forall i :: 0 <= i < |pairs| ==> Sections(data, base, pairs)[i].data == MapFiles.Entries(data, base, pairs)[i].data
  {
    ChunkPairsAgree(data, 2 + 65 * count, MapFiles.PointerSlots);
    RecordsAgree(data, count);
    DumpSectionsOk(data, count, pairs);
    forall i | 0 <= i < |pairs|
      ensures Sections(data, base, pairs)[i].data == MapFiles.Entries(data, base, pairs)[i].data
    {
      SectionFallbackInert(data, base, pairs, i);
    }
  }

  /** Where the editor loads the file, the dump measures its sixteen sections from the
      editor's `pointer_table_offset + 64`, and every section holds exactly the data of the
      loaded entry with the same index. */
  lemma DumpSectionsAgree(data: seq<byte>, icons: map<string, seq<Option<int>>>)
    requires MapFiles.LoadData(data, icons).Ok?
    ensures DumpBase(data, WordAt(data, 0)) == 2 + 65 * WordAt(data, 0) + 4 * MapFiles.PointerSlots
    ensures DumpSectionsOf(data).Ok? && |DumpSectionsOf(data).value| == MapFiles.PointerSlots
    ensures forall i :: 0 <= i < MapFiles.PointerSlots ==>
              DumpSectionsOf(data).value[i].data == MapFiles.LoadData(data, icons).value.entries[i].data
  {
    var count, pairs := MapFiles.LoadParts(data, icons);
    DumpSectionsOfParts(data, count, pairs, 2 + 65 * count + 4 * MapFiles.PointerSlots);
  }

  /** Where the end of the data cuts the pointer table short, the editor's `load` raises,
      while the dump still reports the records' sections: fewer than sixteen of them,
      measured from a base below `pointer_table_offset + 64`. */
  lemma DumpShortTable(data: seq<byte>, icons: map<string, seq<Option<int>>>)
    requires 2 <= |data|
    requires MapFiles.ReadPairs(data, 2 + 65 * WordAt(data, 0), MapFiles.PointerSlots).Err?
    ensures MapFiles.LoadData(data, icons).Err?
    ensures DumpBase(data, WordAt(data, 0)) < 2 + 65 * WordAt(data, 0) + 4 * MapFiles.PointerSlots
    ensures DumpSectionsOf(data).Ok? ==> |DumpSectionsOf(data).value| < MapFiles.PointerSlots
  {
    ChunkPairsAgree(data, 2 + 65 * WordAt(data, 0), MapFiles.PointerSlots);
  }

  // ---------------------------------------------------------------------------
  // Unit frames in parse_map_file

  /** A template of the library: its name and icon index. */
  datatype Template = Template(name: seq<byte>, iconIndex: Option<int>)

  datatype DumpUnit = DumpUnit(
    slot: nat,
    templateId: byte,
    templateName: seq<byte>,
    templateIcon: Option<int>,
    ownerRaw: byte,
    side: int,
    regionIndex: u16,
    regionName: Option<seq<byte>>,
    tileX: u16,
    tileY: u16,
    rawWords: seq<u16>)

  /** What the dump makes of one frame: nothing when the template id (low byte of word 0)
      does not index the templates, otherwise a unit whose side is the low two bits of the
      owner byte (high byte of word 0). */
  function FrameUnit(frame: seq<byte>, slot: nat, templates: seq<Template>, regionNames: seq<seq<byte>>): (r: Option<DumpUnit>)
    requires |frame| == 32
    ensures r.Some? <==> LowByte(WordAt(frame, 0)) < |templates|
  {
    var words := UnpackWords(frame);
    UnpackWordsAt(frame, 0);
    var tid := LowByte(words[0]);
    var owner := HighByte(words[0]);
    if tid >= |templates| then None
    else
      var regionName := if words[1] < |regionNames| then Some(regionNames[words[1]]) else None;
      Some(DumpUnit(slot, tid, templates[tid].name, templates[tid].iconIndex, owner, owner % 4,
                    words[1], regionName, words[2], words[3], words[..8]))
  }

  /** The units of the first `n` frames. */
  function DumpUnits(chunk: seq<byte>, templates: seq<Template>, regionNames: seq<seq<byte>>, n: nat): (r: seq<DumpUnit>)
    requires 32 * n <= |chunk|
    ensures |r| <= n
  {
    if n == 0 then []
    else
      var before := DumpUnits(chunk, templates, regionNames, n - 1);
      match FrameUnit(Units.Frame(chunk, n - 1), n - 1, templates, regionNames)
      case None => before
      case Some(u) => before + [u]
  }

  /** The frame loop of `parse_map_file` for a unit section. */
  method ReadDumpUnits(chunk: seq<byte>, templates: seq<Template>, regionNames: seq<seq<byte>>) returns (units: seq<DumpUnit>)
    ensures units == DumpUnits(chunk, templates, regionNames, |chunk| / 32)
  {
    units := [];
    var frames := |chunk| / 32;
    for slot := 0 to frames
      invariant units == DumpUnits(chunk, templates, regionNames, slot)
    {
      var frame := chunk[slot * 32..(slot + 1) * 32];
      var u := FrameUnit(frame, slot, templates, regionNames);
      if u.None? {
        continue;
      }
      units := units + [u.value];
    }
  }

  /** Every unit is the decoding of a frame whose template exists, with the side taken
      from the owner byte, and slots strictly increase. */
  lemma {:induction false} DumpUnitsSound(chunk: seq<byte>, templates: seq<Template>, regionNames: seq<seq<byte>>, n: nat)
    requires 32 * n <= |chunk|
    ensures forall k :: 0 <= k < |DumpUnits(chunk, templates, regionNames, n)| ==>
              var u := DumpUnits(chunk, templates, regionNames, n)[k];
              u.slot < n && u.templateId < |templates| && u.side == u.ownerRaw % 4
              && Some(u) == FrameUnit(Units.Frame(chunk, u.slot), u.slot, templates, regionNames)
    ensures forall k, l :: 0 <= k < l < |DumpUnits(chunk, templates, regionNames, n)| ==>
              DumpUnits(chunk, templates, regionNames, n)[k].slot < DumpUnits(chunk, templates, regionNames, n)[l].slot
  {
    if n > 0 {
      DumpUnitsSound(chunk, templates, regionNames, n - 1);
      var before := DumpUnits(chunk, templates, regionNames, n - 1);
      var fu := FrameUnit(Units.Frame(chunk, n - 1), n - 1, templates, regionNames);
      if fu.Some? {
        Units.SnocParts(before, fu.value);
      }
    }
  }

  /** Every frame whose template exists yields a unit. */
  lemma {:induction false} DumpUnitsComplete(chunk: seq<byte>, templates: seq<Template>, regionNames: seq<seq<byte>>, n: nat, i: nat)
    requires 32 * n <= |chunk| && i < n
    requires LowByte(WordAt(Units.Frame(chunk, i), 0)) < |templates|
    ensures exists k :: 0 <= k < |DumpUnits(chunk, templates, regionNames, n)| && DumpUnits(chunk, templates, regionNames, n)[k].slot == i
  {
    var before := DumpUnits(chunk, templates, regionNames, n - 1);
    var fu := FrameUnit(Units.Frame(chunk, n - 1), n - 1, templates, regionNames);
    if fu.Some? {
      Units.SnocParts(before, fu.value);
    }
    if i < n - 1 {
      DumpUnitsComplete(chunk, templates, regionNames, n - 1, i);
      var k :| 0 <= k < |before| && before[k].slot == i;
      assert DumpUnits(chunk, templates, regionNames, n)[k] == before[k];
    } else {
      assert DumpUnits(chunk, templates, regionNames, n)[|before|].slot == i;
    }
  }
}
