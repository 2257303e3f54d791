/** The `MapFile` object of editor/data.py: its regions, pointer entries and unit tables
    are objects the editor changes in place, and `load` and `save` build and write them
    loop by loop. Each loop is proved against the value model of the map file. */
module MapObjects {
  import opened Bytes
  import Region
  import Units
  import opened MapFiles

  /** The regions' values, in order. */
  function RegionValues(rs: seq<Region.MapRegion>): seq<Region.RegionData>
    reads rs
  {
    seq(|rs|, i reads rs requires 0 <= i < |rs| => rs[i].Value())
  }

  /** The pointer entries' values, in order. */
  function EntryValues(es: seq<Units.PointerEntry>): seq<Units.EntryData>
    reads es
  {
    seq(|es|, i reads es requires 0 <= i < |es| => es[i].Value())
  }

  /** The unit tables' values, in order. */
  function TableValues(ts: seq<Units.UnitTable>): seq<TableData>
    reads ts
  {
    seq(|ts|, i reads ts requires 0 <= i < |ts| => TableData(ts[i].kind, ts[i].units, ts[i].maxSlots))
  }

  /** `MapFile`. The dictionary of unit tables is the sequence of the tables of entries
      5, 8 and 11, in that order. */
  class MapFile {
    var regions: seq<Region.MapRegion>
    var pointerEntries: seq<Units.PointerEntry>
    var unitTables: seq<Units.UnitTable>
    var pointerBlob: seq<byte>

    /** Sixteen distinct entries, and table `k` writes into entry `UnitSlots[k]`. */
    ghost predicate Valid()
      reads this, unitTables
    {
      |pointerEntries| == PointerSlots && |unitTables| == |UnitSlots|
      && (forall i, j :: 0 <= i < j < |pointerEntries| ==> pointerEntries[i] != pointerEntries[j])
      && forall k :: 0 <= k < |unitTables| ==> unitTables[k].pointerEntry == pointerEntries[UnitSlots[k]]
    }

    /** The file as a value. */
    function Value(): MapData
      reads this, regions, pointerEntries, unitTables
    {
      MapData(RegionValues(regions), EntryValues(pointerEntries), TableValues(unitTables), pointerBlob)
    }

    constructor (regions: seq<Region.MapRegion>, pointerEntries: seq<Units.PointerEntry>,
                 unitTables: seq<Units.UnitTable>, pointerBlob: seq<byte>)
      ensures this.regions == regions && this.pointerEntries == pointerEntries
      ensures this.unitTables == unitTables && this.pointerBlob == pointerBlob
    {
      this.regions := regions;
      this.pointerEntries := pointerEntries;
      this.unitTables := unitTables;
      this.pointerBlob := pointerBlob;
    }

    /** `MapFile.load` over the file's bytes and the template icons of each kind: fails
        exactly when `LoadData` does, and otherwise builds fresh objects whose values are
        what `LoadData` reads. */
    static method Load(data: seq<byte>, icons: map<string, seq<Option<int>>>) returns (r: Result<MapFile>)
      ensures r.Ok? <==> LoadData(data, icons).Ok?
      ensures r.Ok? ==> fresh(r.value) && r.value.Valid() && r.value.Value() == LoadData(data, icons).value
    {
      var countRead := ReadWord(data, 0);
      if countRead.Err? {
        return Err(countRead.message);
      }
      var count: nat := countRead.value.0;
      var regions := ReadRegions(data, count);
      if regions.Err? {
        LoadDataParts(data, icons);
        return Err(regions.message);
      }
      var off := 2 + 65 * count;
      var pairs := ReadPointerPairs(data, off);
      if pairs.Err? {
        LoadDataParts(data, icons);
        return Err(pairs.message);
      }
      var base := off + 64;
      var m := Assemble(data, base, regions.value, pairs.value, icons);
      LoadDataOk(data, icons, count, RegionValues(regions.value), pairs.value, base);
      return Ok(m);
    }

    /** The objects `load` builds once the regions and the pointer table are read: the
        entries over the blob from `base`, the tables over those entries, and the blob. */
    static method Assemble(data: seq<byte>, base: nat, regions: seq<Region.MapRegion>, pairs: seq<PointerPair>,
                           icons: map<string, seq<Option<int>>>) returns (m: MapFile)
      requires |pairs| == PointerSlots
      ensures fresh(m) && m.Valid()
      ensures m.Value() == MapData(RegionValues(regions), Entries(data, base, pairs),
                                   TablesOf(Entries(data, base, pairs), icons), From(data, base))
    {
      ghost var rv := RegionValues(regions);
      var entries := ReadEntries(data, base, pairs);
      ghost var ev := EntryValues(entries);
      var tables := BuildTables(entries, icons);
      ghost var tv := TableValues(tables);
      m := new MapFile(regions, entries, tables, From(data, base));
      assert m.Value() == MapData(rv, ev, tv, From(data, base));
    }

    /** `MapFile.save`: sync each unit table into its entry, then serialise. The result
        is `SaveData` of the file as it was, and the entries end as the sync leaves them,
        also when it fails. */
    method Save() returns (r: Result<seq<byte>>)
      requires Valid()
      modifies pointerEntries
      ensures r == SaveData(old(Value()))
      ensures Value() == old(Value()).(entries := SyncFrom(old(Value()).entries, old(Value()).tables, 0).0)
    {
      var err := SyncTables();
      if err.Some? {
        return Err(err.value);
      }
      r := Serialized();
    }

    /** The `sync_to_pointer` loop of `save`: each table in turn writes its rebuilt chunk
        into its entry; the first failure stops the loop. */
    method SyncTables() returns (err: Option<string>)
      requires Valid()
      modifies pointerEntries
      ensures (EntryValues(pointerEntries), err) == SyncFrom(old(EntryValues(pointerEntries)), TableValues(unitTables), 0)
    {
      ghost var e0 := EntryValues(pointerEntries);
      for k := 0 to |unitTables|
        invariant SyncFrom(e0, TableValues(unitTables), 0) == SyncFrom(EntryValues(pointerEntries), TableValues(unitTables), k)
      {
        err := SyncOne(k);
        if err.Some? {
          return;
        }
      }
      err := None;
    }

    /** One round of the sync loop: table `k` writes into its entry. */
    method SyncOne(k: nat) returns (err: Option<string>)
      requires Valid() && k < |unitTables|
      modifies pointerEntries[UnitSlots[k]]
      ensures var next := SyncFrom(old(EntryValues(pointerEntries)), TableValues(unitTables), k);
              if err.Some? then EntryValues(pointerEntries) == old(EntryValues(pointerEntries)) && next == (EntryValues(pointerEntries), err)
              else next == SyncFrom(EntryValues(pointerEntries), TableValues(unitTables), k + 1)
    {
      ghost var before := EntryValues(pointerEntries);
      var table := unitTables[k];
      err := table.SyncToPointer();
      ghost var pos := UnitSlots[k];
      if err.Some? {
        assert EntryValues(pointerEntries) == before;
        return;
      }
      assert EntryValues(pointerEntries) == before[pos := before[pos].(data := pointerEntries[pos].data)];
    }

    /** The serialising half of `save`: the count word, each region's `to_bytes`, the
        pointer table, then the blob with every entry written back at its start. */
    method Serialized() returns (r: Result<seq<byte>>)
      ensures r == Serialize(Value())
    {
      if |regions| >= 0x1_0000 {
        return Err(UShortRange);
      }
      var regionBytes := WriteRegions(regions);
      if regionBytes.Err? {
        return Err(regionBytes.message);
      }
      var pairBytes := WritePairs(pointerEntries);
      if pairBytes.Err? {
        return Err(pairBytes.message);
      }
      EncodePairsStarts(EntryValues(pointerEntries));
      assert forall i :: 0 <= i < |pointerEntries| ==> pointerEntries[i].start == EntryValues(pointerEntries)[i].start;
      var blob := WriteBlob(pointerBlob, pointerEntries);
      if blob.Err? {
        return Err(blob.message);
      }
      return Ok(WordBytes(|regions|) + regionBytes.value + pairBytes.value + blob.value);
    }
  }

  // ---------------------------------------------------------------------------
  // The loops of `load`

  /** The region loop of `load`: record `i` is parsed into a fresh region. */
  method ReadRegions(data: seq<byte>, count: nat) returns (r: Result<seq<Region.MapRegion>>)
    ensures r.Ok? <==> ParseRegions(data, count).Ok?
    ensures r.Ok? ==> RegionValues(r.value) == ParseRegions(data, count).value
  {
    var regions: seq<Region.MapRegion> := [];
    ghost var vals: seq<Region.RegionData> := [];
    var cursor := 2;
    for index := 0 to count
      invariant cursor == 2 + 65 * index
      invariant ParseRegions(data, index) == Ok(vals)
      invariant |regions| == |vals| && forall i :: 0 <= i < |regions| ==> regions[i].Value() == vals[i]
    {
      var block := Slice(data, cursor, cursor + Region.RecordLen);
      assert block == RegionBlock(data, index);
      var parsed := Region.ParseRegionBlock(block, index);
      RegionsParseStep(data, index);
      if parsed.Err? {
        ParseRegionsErrStays(data, index + 1, count);
        return Err(parsed.message);
      }
      regions := regions + [parsed.value];
      vals := vals + [parsed.value.Value()];
      cursor := cursor + Region.RecordLen;
    }
    assert RegionValues(regions) == vals;
    return Ok(regions);
  }

  /** The pointer-table loop of `load`: sixteen (start, count) word pairs from `off` on. */
  method ReadPointerPairs(data: seq<byte>, off: nat) returns (r: Result<seq<PointerPair>>)
    ensures r == ReadPairs(data, off, PointerSlots)
  {
    var pairs: seq<PointerPair> := [];
    for idx := 0 to PointerSlots
      invariant ReadPairs(data, off, idx) == Ok(pairs)
    {
      var start := ReadWord(data, off + idx * 4);
      if start.Err? {
        ReadPairsErrStays(data, off, idx + 1, PointerSlots);
        return Err(start.message);
      }
      var count := ReadWord(data, off + idx * 4 + 2);
      if count.Err? {
        ReadPairsErrStays(data, off, idx + 1, PointerSlots);
        return Err(count.message);
      }
      pairs := pairs + [PointerPair(start.value.0, count.value.0)];
    }
    return Ok(pairs);
  }

  /** The scan for the next chunk start: the least absolute start strictly above `a`,
      which is the first one above `a` in the sorted list `load` walks. */
  method NextStart(starts: seq<nat>, a: nat) returns (r: Option<nat>)
    ensures r == LeastAbove(starts, a)
  {
    r := None;
    var i := |starts|;
    while i > 0
      invariant 0 <= i <= |starts|
      invariant r == LeastAbove(starts[i..], a)
    {
      i := i - 1;
      assert starts[i..][1..] == starts[i + 1..];
      if starts[i] > a && (r.None? || starts[i] <= r.value) {
        r := Some(starts[i]);
      }
    }
  }

  /** The entry loop of `load`: entry `idx` gets its pair and the bytes from its
      absolute start to the next larger start, or to the end of the file. */
  method ReadEntries(data: seq<byte>, base: nat, pairs: seq<PointerPair>) returns (es: seq<Units.PointerEntry>)
    ensures EntryValues(es) == Entries(data, base, pairs)
    ensures forall i, j :: 0 <= i < j < |es| ==> es[i] != es[j]
  {
    var starts := AbsStarts(base, pairs);
    es := [];
    for idx := 0 to |pairs|
      invariant |es| == idx
      invariant forall i :: 0 <= i < idx ==> fresh(es[i]) && es[i].Value() == EntryAt(data, base, pairs, i)
      invariant forall i, j :: 0 <= i < j < idx ==> es[i] != es[j]
    {
      var abs := base + pairs[idx].start;
      var next := NextStart(starts, abs);
      var limit := if next.None? then |data| else next.value;
      var chunk := Slice(data, abs, limit);
      var entry := new Units.PointerEntry(idx, pairs[idx].start, pairs[idx].count, chunk, |chunk|);
      es := es + [entry];
    }
  }

  /** The icon loop of `load`: a unit whose template id indexes the templates takes that
      template's icon. */
  method AttachIcons(units: seq<Units.UnitRecord>, templates: seq<Option<int>>) returns (out: seq<Units.UnitRecord>)
    ensures out == WithIcons(units, templates)
  {
    out := units;
    for i := 0 to |out|
      invariant |out| == |units|
      invariant forall j :: 0 <= j < i ==> out[j] == WithIcons(units, templates)[j]
      invariant forall j :: i <= j < |out| ==> out[j] == units[j]
    {
      if 0 <= out[i].templateId < |templates| {
        out := out[i := out[i].(templateIcon := templates[out[i].templateId])];
      }
    }
  }

  /** The table loop of `load`: the entries `UNIT_POINTER_MAP` names, 5, 8 and 11, each
      get a table of their parsed units over their data. */
  method BuildTables(entries: seq<Units.PointerEntry>, icons: map<string, seq<Option<int>>>) returns (ts: seq<Units.UnitTable>)
    requires |entries| == PointerSlots
    ensures TableValues(ts) == TablesOf(EntryValues(entries), icons)
    ensures |ts| == |UnitSlots| && forall k :: 0 <= k < |ts| ==> ts[k].pointerEntry == entries[UnitSlots[k]]
  {
    ts := [];
    ghost var vals := EntryValues(entries);
    for k := 0 to |UnitSlots|
      invariant |ts| == k && EntryValues(entries) == vals
      invariant forall j :: 0 <= j < k ==>
                  ts[j].pointerEntry == entries[UnitSlots[j]]
                  && TableData(ts[j].kind, ts[j].units, ts[j].maxSlots) == TableOf(vals[UnitSlots[j]], UnitKinds[j], icons)
    {
      var entry := entries[UnitSlots[k]];
      assert entry.data == vals[UnitSlots[k]].data;
      var kind := UnitKinds[k];
      var units := Units.ReadUnitTable(entry.data);
      var templates := if kind in icons then icons[kind] else [];
      units := AttachIcons(units, templates);
      var table := new Units.UnitTable(kind, entry, units, |entry.data| / Units.FrameSize);
      ts := ts + [table];
    }
  }

  // ---------------------------------------------------------------------------
  // The loops of `save`

  /** The region loop of `save`. */
  method WriteRegions(rs: seq<Region.MapRegion>) returns (r: Result<seq<byte>>)
    ensures r == EncodeRegions(RegionValues(rs))
  {
    var out: seq<byte> := [];
    for i := 0 to |rs|
      invariant EncodeRegions(RegionValues(rs)[..i]) == Ok(out)
    {
      var b := rs[i].ToBytes();
      RegionsStep(RegionValues(rs), i);
      if b.Err? {
        RegionsErrStays(RegionValues(rs), i + 1);
        return Err(b.message);
      }
      out := out + b.value;
    }
    assert RegionValues(rs)[..|rs|] == RegionValues(rs);
    return Ok(out);
  }

  /** The pointer-table loop of `save`. */
  method WritePairs(es: seq<Units.PointerEntry>) returns (r: Result<seq<byte>>)
    ensures r == EncodePairs(EntryValues(es))
  {
    var out: seq<byte> := [];
    for i := 0 to |es|
      invariant EncodePairs(EntryValues(es)[..i]) == Ok(out)
    {
      var e := es[i];
      assert EntryValues(es)[i] == e.Value();
      PairsStep(EntryValues(es), i);
      if !(0 <= e.start < 0x1_0000 && 0 <= e.count < 0x1_0000) {
        PairsErrStays(EntryValues(es), i + 1);
        return Err(UShortRange);
      }
      out := out + (WordBytes(e.start) + WordBytes(e.count));
    }
    assert EntryValues(es)[..|es|] == EntryValues(es);
    return Ok(out);
  }

  /** The blob loop of `save`: each entry is checked and written over a copy of the blob. */
  method WriteBlob(blob: seq<byte>, es: seq<Units.PointerEntry>) returns (r: Result<seq<byte>>)
    requires forall i :: 0 <= i < |es| ==> es[i].start >= 0
    ensures r == WriteEntries(blob, EntryValues(es))
  {
    var out := blob;
    for i := 0 to |es|
      invariant WriteEntries(blob, EntryValues(es)[..i]) == Ok(out)
    {
      var e := es[i];
      assert EntryValues(es)[i] == e.Value();
      WritesStep(blob, EntryValues(es), i);
      if |e.data| != e.length {
        WritesErrStays(blob, EntryValues(es), i + 1);
        return Err(LengthChanged);
      }
      if e.start + e.length > |out| {
        WritesErrStays(blob, EntryValues(es), i + 1);
        return Err(ExceedsBlob);
      }
      out := out[..e.start] + e.data + out[e.start + e.length..];
    }
    assert EntryValues(es)[..|es|] == EntryValues(es);
    return Ok(out);
  }

  // ---------------------------------------------------------------------------
  // Steps of the loops

  /** `LoadData` once the count word is read. */
  lemma LoadDataParts(data: seq<byte>, icons: map<string, seq<Option<int>>>)
    requires 2 <= |data|
    ensures LoadData(data, icons).Ok? <==>
              ParseRegions(data, WordAt(data, 0)).Ok? && ReadPairs(data, 2 + 65 * WordAt(data, 0), PointerSlots).Ok?
    ensures LoadData(data, icons).Ok? ==>
              var base := 2 + 65 * WordAt(data, 0) + 64;
              var es := Entries(data, base, ReadPairs(data, 2 + 65 * WordAt(data, 0), PointerSlots).value);
              LoadData(data, icons).value == MapData(ParseRegions(data, WordAt(data, 0)).value, es, TablesOf(es, icons), From(data, base))
  {
    assert ReadWord(data, 0) == Ok((WordAt(data, 0), 2));
  }

  /** With the regions and the pointer table read, `LoadData` is the file those parts
      make: the entries and tables over the blob from `base`, and the blob itself. */
  lemma LoadDataOk(data: seq<byte>, icons: map<string, seq<Option<int>>>, count: nat,
                   regions: seq<Region.RegionData>, pairs: seq<PointerPair>, base: nat)
    requires 2 <= |data| && count == WordAt(data, 0) && base == 2 + 65 * count + 64
    requires ParseRegions(data, count) == Ok(regions)
    requires ReadPairs(data, 2 + 65 * count, PointerSlots) == Ok(pairs)
    ensures LoadData(data, icons) == Ok(MapData(regions, Entries(data, base, pairs), TablesOf(Entries(data, base, pairs), icons), From(data, base)))
  {
    assert ReadWord(data, 0) == Ok((WordAt(data, 0), 2));
  }

  lemma {:induction false} ReadPairsErrStays(data: seq<byte>, off: nat, n: nat, m: nat)
    requires n <= m && ReadPairs(data, off, n).Err?
    ensures ReadPairs(data, off, m) == ReadPairs(data, off, n)
    decreases m - n
  {
    if n < m {
      ReadPairsErrStays(data, off, n + 1, m);
    }
  }

  lemma RegionsParseStep(data: seq<byte>, n: nat)
    ensures ParseRegions(data, n + 1) ==
              match ParseRegions(data, n)
              case Err(m) => Err(m)
              case Ok(rs) =>
                match Region.ParseBlock(RegionBlock(data, n), n) case Err(m) => Err(m) case Ok(d) => Ok(rs + [d])
  {
  }

  lemma {:induction false} ParseRegionsErrStays(data: seq<byte>, n: nat, m: nat)
    requires n <= m && ParseRegions(data, n).Err?
    ensures ParseRegions(data, m) == ParseRegions(data, n)
    decreases m - n
  {
    if n < m {
      RegionsParseStep(data, n);
      ParseRegionsErrStays(data, n + 1, m);
    }
  }

  lemma RegionsStep(rs: seq<Region.RegionData>, n: nat)
    requires n < |rs|
    ensures EncodeRegions(rs[..n + 1]) ==
              match EncodeRegions(rs[..n])
              case Err(m) => Err(m)
              case Ok(p) => match Region.Encode(rs[n]) case Err(m) => Err(m) case Ok(b) => Ok(p + b)
  {
    assert rs[..n + 1][..n] == rs[..n];
  }

  lemma {:induction false} RegionsErrStays(rs: seq<Region.RegionData>, n: nat)
    requires n <= |rs| && EncodeRegions(rs[..n]).Err?
    ensures EncodeRegions(rs) == EncodeRegions(rs[..n])
    decreases |rs| - n
  {
    if n < |rs| {
      RegionsStep(rs, n);
      RegionsErrStays(rs, n + 1);
    } else {
      assert rs[..n] == rs;
    }
  }

  lemma PairsStep(es: seq<Units.EntryData>, n: nat)
    requires n < |es|
    ensures EncodePairs(es[..n + 1]) ==
              match EncodePairs(es[..n])
              case Err(m) => Err(m)
              case Ok(p) => match PairBytes(es[n]) case Err(m) => Err(m) case Ok(b) => Ok(p + b)
  {
    assert es[..n + 1][..n] == es[..n];
  }

  lemma {:induction false} PairsErrStays(es: seq<Units.EntryData>, n: nat)
    requires n <= |es| && EncodePairs(es[..n]).Err?
    ensures EncodePairs(es) == EncodePairs(es[..n])
    decreases |es| - n
  {
    if n < |es| {
      PairsStep(es, n);
      PairsErrStays(es, n + 1);
    } else {
      assert es[..n] == es;
    }
  }

  lemma WritesStep(blob: seq<byte>, es: seq<Units.EntryData>, n: nat)
    requires n < |es| && forall i :: 0 <= i < |es| ==> es[i].start >= 0
    ensures WriteEntries(blob, es[..n + 1]) ==
              match WriteEntries(blob, es[..n])
              case Err(m) => Err(m)
              case Ok(b) =>
                if |es[n].data| != es[n].length then Err(LengthChanged)
                else if es[n].start + es[n].length > |b| then Err(ExceedsBlob)
                else Ok(b[..es[n].start] + es[n].data + b[es[n].start + es[n].length..])
  {
    assert es[..n + 1][..n] == es[..n];
  }

  lemma {:induction false} WritesErrStays(blob: seq<byte>, es: seq<Units.EntryData>, n: nat)
    requires n <= |es| && forall i :: 0 <= i < |es| ==> es[i].start >= 0
    requires WriteEntries(blob, es[..n]).Err?
    ensures WriteEntries(blob, es) == WriteEntries(blob, es[..n])
    decreases |es| - n
  {
    if n < |es| {
      WritesStep(blob, es, n);
      WritesErrStays(blob, es, n + 1);
    } else {
      assert es[..n] == es;
    }
  }
}
