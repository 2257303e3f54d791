/** The map file of editor/data.py (`MapFile.load`, `MapFile.save`): a little-endian
    region count, that many 65-byte region records, a table of 16 (start, count) word
    pairs, and the pointer blob the starts index into. Three of the pointer entries hold
    unit tables. */
module MapFiles {
  import opened Bytes
  import Region
  import Units

  /** Number of (start, count) pairs in the pointer table. */
  const PointerSlots: nat := 16

  const LengthChanged: string := "Pointer entry length changed; resizing not supported."
  const ExceedsBlob: string := "Pointer entry exceeds pointer blob bounds."

  /** The pointer entries that hold unit tables, in the order `load` creates the tables,
      and their kinds. */
  const UnitSlots: seq<nat> := [5, 8, 11]
  const UnitKinds: seq<string> := ["air", "surface", "sub"]

  datatype PointerPair = PointerPair(start: u16, count: u16)

  /** A `UnitTable` as a value: its kind, its units and its slot count. */
  datatype TableData = TableData(kind: string, units: seq<Units.UnitRecord>, maxSlots: nat)

  /** A loaded map file as a value. `tables[k]` belongs to `entries[UnitSlots[k]]`. */
  datatype MapData = MapData(
    regions: seq<Region.RegionData>,
    entries: seq<Units.EntryData>,
    tables: seq<TableData>,
    blob: seq<byte>)

  // ---------------------------------------------------------------------------
  // Regions

  /** Region record `i`: 65 bytes after the count word and the records before it, cut
      short at the end of the file. */
  function RegionBlock(data: seq<byte>, i: nat): seq<byte>
  {
    Slice(data, 2 + 65 * i, 2 + 65 * i + 65)
  }

  /** The region loop of `load`: records 0..n-1 in order; the first that fails stops it. */
  function ParseRegions(data: seq<byte>, n: nat): (r: Result<seq<Region.RegionData>>)
    ensures r.Ok? ==> |r.value| == n
  {
    if n == 0 then Ok([])
    else
      match ParseRegions(data, n - 1)
      case Err(m) => Err(m)
      case Ok(rs) =>
        match Region.ParseBlock(RegionBlock(data, n - 1), n - 1)
        case Err(m) => Err(m)
        case Ok(d) => Ok(rs + [d])
  }

  /** The regions load exactly when every record holds at least its 32-byte tail, and
      region `i` is the parse of record `i`. */
  lemma ParseRegionsSpec(data: seq<byte>, n: nat)
    ensures ParseRegions(data, n).Ok? <==> forall i :: 0 <= i < n ==> |RegionBlock(data, i)| >= Region.TailLen
    ensures ParseRegions(data, n).Ok? ==>
              forall i :: 0 <= i < n ==> ParseRegions(data, n).value[i] == Region.ParseBlock(RegionBlock(data, i), i).value
  {
    ParseRegionsOk(data, n);
    if ParseRegions(data, n).Ok? {
      forall i | 0 <= i < n
        ensures ParseRegions(data, n).value[i] == Region.ParseBlock(RegionBlock(data, i), i).value
      {
        ParseRegionAt(data, n, i);
      }
    }
  }

  lemma {:induction false} ParseRegionsOk(data: seq<byte>, n: nat)
    ensures ParseRegions(data, n).Ok? <==> forall i :: 0 <= i < n ==> |RegionBlock(data, i)| >= Region.TailLen
  {
    if n > 0 {
      ParseRegionsOk(data, n - 1);
    }
  }

  lemma {:induction false} ParseRegionAt(data: seq<byte>, n: nat, i: nat)
    requires ParseRegions(data, n).Ok? && i < n
    ensures ParseRegions(data, n).value[i] == Region.ParseBlock(RegionBlock(data, i), i).value
  {
    var rs := ParseRegions(data, n - 1).value;
    var d := Region.ParseBlock(RegionBlock(data, n - 1), n - 1).value;
    assert ParseRegions(data, n).value == rs + [d];
    if i < n - 1 {
      ParseRegionAt(data, n - 1, i);
    }
  }

  // ---------------------------------------------------------------------------
  // The pointer table

  /** The pointer-table loop of `load`: pair `i` is the word at `off + 4i` and the word
      after it; a read past the end fails. */
  function ReadPairs(data: seq<byte>, off: nat, n: nat): (r: Result<seq<PointerPair>>)
    ensures r.Ok? ==> |r.value| == n
  {
    if n == 0 then Ok([])
    else
      match ReadPairs(data, off, n - 1)
      case Err(m) => Err(m)
      case Ok(ps) =>
        match ReadWord(data, off + 4 * (n - 1))
        case Err(m) => Err(m)
        case Ok(s) =>
          match ReadWord(data, off + 4 * (n - 1) + 2)
          case Err(m) => Err(m)
          case Ok(c) => Ok(ps + [PointerPair(s.0, c.0)])
  }

  /** A non-empty table reads exactly when its `4n` bytes are present, and holds their
      words. */
  lemma {:induction false} ReadPairsSpec(data: seq<byte>, off: nat, n: nat)
    ensures ReadPairs(data, off, n).Ok? <==> n == 0 || off + 4 * n <= |data|
    ensures ReadPairs(data, off, n).Ok? ==>
              forall i :: 0 <= i < n ==>
                off + 4 * i + 4 <= |data| &&
                ReadPairs(data, off, n).value[i] == PointerPair(WordAt(data, off + 4 * i), WordAt(data, off + 4 * i + 2))
  {
    if n > 0 {
      ReadPairsSpec(data, off, n - 1);
      var at := off + 4 * (n - 1);
      assert ReadWord(data, at).Ok? <==> at + 2 <= |data|;
      assert ReadWord(data, at + 2).Ok? <==> at + 4 <= |data|;
      assert ReadPairs(data, off, n).Ok? <==>
             ReadPairs(data, off, n - 1).Ok? && ReadWord(data, at).Ok? && ReadWord(data, at + 2).Ok?;
      if ReadPairs(data, off, n).Ok? {
        var ps := ReadPairs(data, off, n - 1).value;
        var p := PointerPair(WordAt(data, off + 4 * (n - 1)), WordAt(data, off + 4 * (n - 1) + 2));
        assert ReadPairs(data, off, n).value == ps + [p];
      }
    }
  }

  // ---------------------------------------------------------------------------
  // Entry extents

  /** The least start strictly above `a`, if any: what the scan over the sorted starts
      in `load` finds. */
  function LeastAbove(starts: seq<nat>, a: nat): Option<nat>
  {
    if starts == [] then None
    else
      var rest := LeastAbove(starts[1..], a);
      if starts[0] > a && (rest.None? || starts[0] <= rest.value) then Some(starts[0]) else rest
  }

  /** There is no start above `a` exactly when none exceeds it; otherwise the result is a
      start, above `a`, and no start above `a` is smaller. */
  lemma {:induction false} LeastAboveSpec(starts: seq<nat>, a: nat)
    ensures LeastAbove(starts, a).None? <==> forall s :: s in starts ==> s <= a
    ensures LeastAbove(starts, a).Some? ==>
              LeastAbove(starts, a).value in starts && LeastAbove(starts, a).value > a
              && forall s :: s in starts && s > a ==> LeastAbove(starts, a).value <= s
  {
    if starts != [] {
      var rest := starts[1..];
      LeastAboveSpec(rest, a);
      assert starts == [starts[0]] + rest;
      if forall s :: s in starts ==> s <= a {
        forall s | s in rest
          ensures s <= a
        {
          assert s in starts;
        }
        assert starts[0] in starts;
      } else {
        var s :| s in starts && s > a;
        if s != starts[0] {
          assert s in rest;
        }
      }
    }
  }

  /** The absolute offsets of the entries: the blob base plus each start. */
  function AbsStarts(base: nat, pairs: seq<PointerPair>): (r: seq<nat>)
    ensures |r| == |pairs|
  {
    seq(|pairs|, i requires 0 <= i < |pairs| => base + pairs[i].start)
  }

  /** Where the chunk at `a` ends: the next strictly larger start, or the end of file. */
  function ChunkEnd(data: seq<byte>, starts: seq<nat>, a: nat): nat
  {
    match LeastAbove(starts, a)
    case None => |data|
    case Some(v) => v
  }

  /** Pointer entry `i` of `load`: its pair and its chunk. */
  function EntryAt(data: seq<byte>, base: nat, pairs: seq<PointerPair>, i: nat): Units.EntryData
    requires i < |pairs|
  {
    var abs := base + pairs[i].start;
    var chunk := Slice(data, abs, ChunkEnd(data, AbsStarts(base, pairs), abs));
    Units.EntryData(i, pairs[i].start, pairs[i].count, chunk, |chunk|)
  }

  function Entries(data: seq<byte>, base: nat, pairs: seq<PointerPair>): (r: seq<Units.EntryData>)
    ensures |r| == |pairs|
  {
    seq(|pairs|, i requires 0 <= i < |pairs| => EntryAt(data, base, pairs, i))
  }

  /** A loaded entry carries its own index and its pair's start and count. */
  lemma EntryFields(data: seq<byte>, base: nat, pairs: seq<PointerPair>, i: nat)
    requires i < |pairs|
    ensures Entries(data, base, pairs)[i].index == i
    ensures Entries(data, base, pairs)[i].start == pairs[i].start && Entries(data, base, pairs)[i].count == pairs[i].count
  {
  }

  /** A loaded entry is the file's bytes from its absolute start; they run up to the next
      start or to the end of the file, and never past any larger start. */
  lemma EntryExtent(data: seq<byte>, base: nat, pairs: seq<PointerPair>, i: nat)
    requires i < |pairs|
    ensures var e := Entries(data, base, pairs)[i];
            var abs := base + pairs[i].start;
            e.index == i && e.start == pairs[i].start && e.count == pairs[i].count && e.length == |e.data|
            && (abs <= |data| ==> abs + e.length <= |data| && e.data == data[abs..abs + e.length])
            && (abs >= |data| ==> e.data == [])
            && (forall j :: 0 <= j < |pairs| && base + pairs[j].start > abs ==> abs + e.length <= base + pairs[j].start)
            && (abs + e.length < |data| ==> abs + e.length in AbsStarts(base, pairs))
  {
    var starts := AbsStarts(base, pairs);
    var abs := base + pairs[i].start;
    LeastAboveSpec(starts, abs);
    forall j | 0 <= j < |pairs| && base + pairs[j].start > abs
      ensures ChunkEnd(data, starts, abs) <= base + pairs[j].start
    {
      assert starts[j] in starts;
    }
  }

  // ---------------------------------------------------------------------------
  // Unit tables

  /** The template icons `load` attaches: a unit whose template id indexes the kind's
      template list gets that template's icon. */
  function WithIcons(units: seq<Units.UnitRecord>, icons: seq<Option<int>>): (r: seq<Units.UnitRecord>)
    ensures |r| == |units|
  {
    seq(|units|, i requires 0 <= i < |units| =>
      if 0 <= units[i].templateId < |icons| then units[i].(templateIcon := icons[units[i].templateId])
      else units[i])
  }

  /** Attaching icons changes nothing but the icon, so the table rebuilds the same. */
  lemma WithIconsRebuild(units: seq<Units.UnitRecord>, icons: seq<Option<int>>, n: nat)
    ensures forall i :: 0 <= i < |units| ==> WithIcons(units, icons)[i].(templateIcon := units[i].templateIcon) == units[i]
    ensures Units.Rebuild(WithIcons(units, icons), n) == Units.Rebuild(units, n)
  {
    var w := WithIcons(units, icons);
    forall i | 0 <= i < |units|
      ensures Units.Encode(w[i]) == Units.Encode(units[i])
    {
      assert w[i] == units[i].(templateIcon := w[i].templateIcon);
      Units.EncodeIgnoresIcon(units[i], w[i].templateIcon);
    }
    Units.RebuildFramesAlike(w, units, n);
  }

  /** The unit table `load` builds for an entry of the given kind. */
  function TableOf(entry: Units.EntryData, kind: string, icons: map<string, seq<Option<int>>>): TableData
  {
    var templates := if kind in icons then icons[kind] else [];
    TableData(kind, WithIcons(Units.ParseUnitTable(entry.data), templates), Units.SlotCount(|entry.data|))
  }

  /** The tables of entries 5, 8 and 11, in that order. */
  function TablesOf(entries: seq<Units.EntryData>, icons: map<string, seq<Option<int>>>): (r: seq<TableData>)
    requires |entries| == PointerSlots
    ensures |r| == |UnitSlots|
  {
    seq(|UnitSlots|, k requires 0 <= k < |UnitSlots| => TableOf(entries[UnitSlots[k]], UnitKinds[k], icons))
  }

  /** The unit slots are exactly the keys of the kind map, with the same kinds. */
  lemma UnitSlotsKinds()
    ensures forall k :: 0 <= k < |UnitSlots| ==> UnitSlots[k] in Units.UnitPointers && Units.UnitPointers[UnitSlots[k]] == UnitKinds[k]
    ensures forall i :: i in Units.UnitPointers ==> i in UnitSlots
  {
  }

  // ---------------------------------------------------------------------------
  // Load

  /** `MapFile.load` over the file's bytes, with the template icons per kind. */
  function LoadData(data: seq<byte>, icons: map<string, seq<Option<int>>>): (r: Result<MapData>)
  {
    match ReadWord(data, 0)
    case Err(m) => Err(m)
    case Ok(w) =>
      match ParseRegions(data, w.0)
      case Err(m) => Err(m)
      case Ok(regions) =>
        match ReadPairs(data, 2 + 65 * w.0, PointerSlots)
        case Err(m) => Err(m)
        case Ok(pairs) =>
          var base := 2 + 65 * w.0 + 64;
          var entries := Entries(data, base, pairs);
          Ok(MapData(regions, entries, TablesOf(entries, icons), From(data, base)))
  }

  /** A loaded file has every region record whole, 16 entries with their own index, the
      blob from the end of the pointer table on, and one table per unit slot. */
  lemma LoadShape(data: seq<byte>, icons: map<string, seq<Option<int>>>)
    ensures LoadData(data, icons).Ok? ==>
              var m := LoadData(data, icons).value;
              var base := 2 + 65 * |m.regions| + 64;
              base <= |data| && m.blob == data[base..] && |m.regions| < 0x10000
              && |m.entries| == PointerSlots && |m.tables| == |UnitSlots|
              && (forall i :: 0 <= i < PointerSlots ==> m.entries[i].index == i && m.entries[i].length == |m.entries[i].data|)
              && forall i :: 0 <= i < |m.regions| ==> |RegionBlock(data, i)| == Region.RecordLen
  {
    if LoadData(data, icons).Ok? {
      var count, pairs := LoadParts(data, icons);
      ReadPairsSpec(data, 2 + 65 * count, PointerSlots);
      WholeRecords(data, count);
    }
  }

  /** Records that end before the end of the data are whole. */
  lemma WholeRecords(data: seq<byte>, count: nat)
    requires 2 + 65 * count <= |data|
    ensures forall i :: 0 <= i < count ==> |RegionBlock(data, i)| == Region.RecordLen
  {
  }

  // ---------------------------------------------------------------------------
  // Save

  /** The `sync_to_pointer` loop of `save`: table `k` (and every one after it) is rebuilt
      over its entry's data; the first failure stops the loop with the earlier tables'
      data already replaced. */
  function SyncFrom(entries: seq<Units.EntryData>, tables: seq<TableData>, k: nat): (r: (seq<Units.EntryData>, Option<string>))
    requires |entries| == PointerSlots && |tables| <= |UnitSlots|
    decreases |tables| - k
  {
    if k >= |tables| then (entries, None)
    else
      var pos := UnitSlots[k];
      var rebuilt := Units.Rebuild(tables[k].units, tables[k].maxSlots);
      if rebuilt.Err? then (entries, Some(rebuilt.message))
      else if |rebuilt.value| != |entries[pos].data| then (entries, Some(Units.SizeMismatch))
      else SyncFrom(entries[pos := entries[pos].(data := rebuilt.value)], tables, k + 1)
  }

  /** Syncing keeps every entry's fields but the data of the unit entries, and keeps the
      size of every entry's data; when it succeeds, each unit entry holds its rebuilt
      table. */
  lemma {:induction false} SyncFromSpec(entries: seq<Units.EntryData>, tables: seq<TableData>, k: nat)
    requires |entries| == PointerSlots && |tables| <= |UnitSlots|
    ensures |SyncFrom(entries, tables, k).0| == PointerSlots
    ensures forall i :: 0 <= i < PointerSlots ==>
              SyncFrom(entries, tables, k).0[i].(data := entries[i].data) == entries[i]
              && |SyncFrom(entries, tables, k).0[i].data| == |entries[i].data|
    ensures forall i :: 0 <= i < PointerSlots && i !in UnitSlots ==> SyncFrom(entries, tables, k).0[i] == entries[i]
    ensures forall j :: 0 <= j < k && j < |UnitSlots| ==> SyncFrom(entries, tables, k).0[UnitSlots[j]] == entries[UnitSlots[j]]
    ensures SyncFrom(entries, tables, k).1.None? ==>
              forall j :: k <= j < |tables| ==>
                Units.Rebuild(tables[j].units, tables[j].maxSlots) == Ok(SyncFrom(entries, tables, k).0[UnitSlots[j]].data)
    decreases |tables| - k
  {
    if k < |tables| {
      var pos := UnitSlots[k];
      var rebuilt := Units.Rebuild(tables[k].units, tables[k].maxSlots);
      if rebuilt.Ok? && |rebuilt.value| == |entries[pos].data| {
        var next := entries[pos := entries[pos].(data := rebuilt.value)];
        SyncFromSpec(next, tables, k + 1);
      }
    }
  }

  /** Tables that already rebuild to their entries' data leave the entries unchanged. */
  lemma {:induction false} SyncUnchanged(entries: seq<Units.EntryData>, tables: seq<TableData>, k: nat)
    requires |entries| == PointerSlots && |tables| <= |UnitSlots|
    requires forall j :: k <= j < |tables| ==> Units.Rebuild(tables[j].units, tables[j].maxSlots) == Ok(entries[UnitSlots[j]].data)
    ensures SyncFrom(entries, tables, k) == (entries, None)
    decreases |tables| - k
  {
    if k < |tables| {
      var pos := UnitSlots[k];
      assert entries[pos := entries[pos].(data := entries[pos].data)] == entries;
      SyncUnchanged(entries, tables, k + 1);
    }
  }

  /** The region loop of `save`: each region's `to_bytes`, joined; the first failure
      stops it. */
  function EncodeRegions(rs: seq<Region.RegionData>): (r: Result<seq<byte>>)
    ensures r.Ok? ==> |r.value| == 65 * |rs|
  {
    if rs == [] then Ok([])
    else
      match EncodeRegions(rs[..|rs| - 1])
      case Err(m) => Err(m)
      case Ok(prefix) =>
        match Region.Encode(rs[|rs| - 1])
        case Err(m) => Err(m)
        case Ok(b) => Ok(prefix + b)
  }

  /** Record `i` of `n` records followed by one more is the old record, or the new one. */
  lemma RecordOfAppend(prefix: seq<byte>, b: seq<byte>, n: nat, i: nat)
    requires |prefix| == 65 * n && |b| == 65 && i <= n
    ensures (prefix + b)[65 * i..65 * i + 65] == if i < n then prefix[65 * i..65 * i + 65] else b
  {
    if i < n {
      assert (prefix + b)[65 * i..65 * i + 65] == prefix[65 * i..65 * i + 65];
    } else {
      assert (prefix + b)[65 * i..65 * i + 65] == b;
    }
  }

  /** Regions encode exactly when each does, into 65 bytes each, in order. */
  lemma {:induction false} EncodeRegionsSpec(rs: seq<Region.RegionData>)
    ensures EncodeRegions(rs).Ok? <==> forall i :: 0 <= i < |rs| ==> Region.Encode(rs[i]).Ok?
    ensures EncodeRegions(rs).Ok? ==>
              |EncodeRegions(rs).value| == 65 * |rs|
              && forall i :: 0 <= i < |rs| ==> EncodeRegions(rs).value[65 * i..65 * i + 65] == Region.Encode(rs[i]).value
  {
    if rs != [] {
      var n := |rs| - 1;
      var init := rs[..n];
      EncodeRegionsSpec(init);
      assert forall i :: 0 <= i < n ==> init[i] == rs[i];
      if EncodeRegions(rs).Ok? {
        var prefix := EncodeRegions(init).value;
        var b := Region.Encode(rs[n]).value;
        assert EncodeRegions(rs).value == prefix + b;
        forall i | 0 <= i < |rs|
          ensures (prefix + b)[65 * i..65 * i + 65] == Region.Encode(rs[i]).value
        {
          RecordOfAppend(prefix, b, n, i);
        }
      } else if forall i :: 0 <= i < n ==> Region.Encode(rs[i]).Ok? {
        assert !Region.Encode(rs[n]).Ok?;
      }
    }
  }

  /** A pair's four bytes: start and count as little-endian words. */
  function PairBytes(e: Units.EntryData): (r: Result<seq<byte>>)
  {
    if 0 <= e.start < 0x1_0000 && 0 <= e.count < 0x1_0000 then Ok(WordBytes(e.start) + WordBytes(e.count))
    else Err(UShortRange)
  }

  /** The pointer-table loop of `save`: each entry's pair, joined; a start or count that
      does not fit in a word fails. */
  function EncodePairs(es: seq<Units.EntryData>): (r: Result<seq<byte>>)
    ensures r.Ok? ==> |r.value| == 4 * |es|
  {
    if es == [] then Ok([])
    else
      match EncodePairs(es[..|es| - 1])
      case Err(m) => Err(m)
      case Ok(prefix) =>
        match PairBytes(es[|es| - 1])
        case Err(m) => Err(m)
        case Ok(b) => Ok(prefix + b)
  }

  /** The table packs exactly when every start and count fits in a word, into four bytes
      per entry that read back as its start and count. */
  lemma {:induction false} EncodePairsSpec(es: seq<Units.EntryData>)
    ensures EncodePairs(es).Ok? <==> forall i :: 0 <= i < |es| ==> 0 <= es[i].start < 0x1_0000 && 0 <= es[i].count < 0x1_0000
    ensures EncodePairs(es).Ok? ==>
              |EncodePairs(es).value| == 4 * |es|
              && forall i :: 0 <= i < |es| ==>
                   WordAt(EncodePairs(es).value, 4 * i) == es[i].start && WordAt(EncodePairs(es).value, 4 * i + 2) == es[i].count
  {
    if es != [] {
      var n := |es| - 1;
      var init := es[..n];
      EncodePairsSpec(init);
      assert forall i :: 0 <= i < n ==> init[i] == es[i];
      if EncodePairs(es).Ok? {
        var prefix := EncodePairs(init).value;
        var b := PairBytes(es[n]).value;
        assert EncodePairs(es).value == prefix + b;
        forall i | 0 <= i < |es|
          ensures WordAt(prefix + b, 4 * i) == es[i].start && WordAt(prefix + b, 4 * i + 2) == es[i].count
        {
          if i < n {
            assert (prefix + b)[4 * i] == prefix[4 * i] && (prefix + b)[4 * i + 1] == prefix[4 * i + 1];
            assert (prefix + b)[4 * i + 2] == prefix[4 * i + 2] && (prefix + b)[4 * i + 3] == prefix[4 * i + 3];
          }
        }
      }
    }
  }

  /** Whether entry `e` covers blob position `p`. */
  predicate Covers(e: Units.EntryData, p: int)
  {
    e.start <= p < e.start + |e.data|
  }

  /** The blob loop of `save`: each entry's data is written over the blob at its start;
      the first entry whose data changed size, or that runs past the blob, fails. */
  function WriteEntries(blob: seq<byte>, es: seq<Units.EntryData>): (r: Result<seq<byte>>)
    requires forall i :: 0 <= i < |es| ==> es[i].start >= 0
    ensures r.Ok? ==> |r.value| == |blob|
  {
    if es == [] then Ok(blob)
    else
      match WriteEntries(blob, es[..|es| - 1])
      case Err(m) => Err(m)
      case Ok(b) =>
        var e := es[|es| - 1];
        if |e.data| != e.length then Err(LengthChanged)
        else if e.start + e.length > |b| then Err(ExceedsBlob)
        else Ok(b[..e.start] + e.data + b[e.start + e.length..])
  }

  /** Writing succeeds exactly when every entry kept its length and fits in the blob. */
  lemma {:induction false} WriteEntriesOk(blob: seq<byte>, es: seq<Units.EntryData>)
    requires forall i :: 0 <= i < |es| ==> es[i].start >= 0
    ensures WriteEntries(blob, es).Ok? <==>
              forall i :: 0 <= i < |es| ==> |es[i].data| == es[i].length && es[i].start + es[i].length <= |blob|
  {
    if es != [] {
      var init := es[..|es| - 1];
      WriteEntriesOk(blob, init);
      assert forall i :: 0 <= i < |init| ==> init[i] == es[i];
    }
  }

  /** After writing, a blob position no entry covers keeps its byte. */
  lemma {:induction false} WriteEntriesUntouched(blob: seq<byte>, es: seq<Units.EntryData>, p: nat)
    requires forall i :: 0 <= i < |es| ==> es[i].start >= 0
    requires WriteEntries(blob, es).Ok? && p < |blob|
    requires forall i :: 0 <= i < |es| ==> !Covers(es[i], p)
    ensures WriteEntries(blob, es).value[p] == blob[p]
  {
    if es != [] {
      var n := |es| - 1;
      var init := es[..n];
      assert forall i :: 0 <= i < n ==> init[i] == es[i];
      WriteEntriesUntouched(blob, init, p);
      WriteOne(WriteEntries(blob, init).value, es[n]);
    }
  }

  /** After writing, a position holds the byte of the last entry that covers it. */
  lemma {:induction false} WriteEntriesLastWins(blob: seq<byte>, es: seq<Units.EntryData>, i: nat, p: int)
    requires forall i :: 0 <= i < |es| ==> es[i].start >= 0
    requires WriteEntries(blob, es).Ok? && i < |es| && Covers(es[i], p)
    requires forall j :: i < j < |es| ==> !Covers(es[j], p)
    ensures 0 <= p < |blob| && WriteEntries(blob, es).value[p] == es[i].data[p - es[i].start]
  {
    var n := |es| - 1;
    var init := es[..n];
    assert forall k :: 0 <= k < n ==> init[k] == es[k];
    WriteOne(WriteEntries(blob, init).value, es[n]);
    if i < n {
      WriteEntriesLastWins(blob, init, i, p);
    }
  }

  /** One write: a position the entry covers takes the entry's byte; every other keeps
      its own. */
  lemma WriteOne(b: seq<byte>, e: Units.EntryData)
    requires 0 <= e.start && e.start + |e.data| <= |b| && e.length == |e.data|
    ensures forall p :: 0 <= p < |b| ==>
              (b[..e.start] + e.data + b[e.start + e.length..])[p] == if Covers(e, p) then e.data[p - e.start] else b[p]
  {
  }

  /** Writing entries whose data already sits at their starts leaves the blob as it is. */
  lemma {:induction false} WriteEntriesSame(blob: seq<byte>, es: seq<Units.EntryData>)
    requires forall i :: 0 <= i < |es| ==>
               0 <= es[i].start && es[i].start + |es[i].data| <= |blob| && es[i].length == |es[i].data|
               && es[i].data == blob[es[i].start..es[i].start + |es[i].data|]
    ensures WriteEntries(blob, es) == Ok(blob)
  {
    if es != [] {
      var n := |es| - 1;
      var init := es[..n];
      assert forall i :: 0 <= i < n ==> init[i] == es[i];
      WriteEntriesSame(blob, init);
      var e := es[n];
      Splice(blob, e.start, e.start + e.length);
    }
  }

  /** Cutting a sequence in three and joining the parts gives it back. */
  lemma Splice<T>(s: seq<T>, a: nat, b: nat)
    requires a <= b <= |s|
    ensures s[..a] + s[a..b] + s[b..] == s
  {
  }

  /** A table that packed has no negative start. */
  lemma EncodePairsStarts(es: seq<Units.EntryData>)
    requires EncodePairs(es).Ok?
    ensures forall i :: 0 <= i < |es| ==> es[i].start >= 0
  {
    EncodePairsSpec(es);
  }

  /** The bytes `save` writes once the unit tables are synced: the region count word,
      the regions, the pointer table and the written blob. */
  function Serialize(m: MapData): (r: Result<seq<byte>>)
    ensures r.Ok? ==> forall i :: 0 <= i < |m.entries| ==> m.entries[i].start >= 0
  {
    if |m.regions| >= 0x1_0000 then Err(UShortRange)
    else
      match EncodeRegions(m.regions)
      case Err(e) => Err(e)
      case Ok(rb) =>
        match EncodePairs(m.entries)
        case Err(e) => Err(e)
        case Ok(pb) =>
          EncodePairsStarts(m.entries);
          match WriteEntries(m.blob, m.entries)
          case Err(e) => Err(e)
          case Ok(blob) => Ok(WordBytes(|m.regions|) + rb + pb + blob)
  }

  /** `MapFile.save`: sync the unit tables, then serialise. */
  function SaveData(m: MapData): Result<seq<byte>>
    requires |m.entries| == PointerSlots && |m.tables| <= |UnitSlots|
  {
    var synced := SyncFrom(m.entries, m.tables, 0);
    if synced.1.Some? then Err(synced.1.value) else Serialize(m.(entries := synced.0))
  }

  /** A saved file is laid out as `load` reads it: the count word, 65 bytes per region,
      4 bytes per entry, then the blob at its old size. */
  lemma SerializeShape(m: MapData)
    ensures Serialize(m).Ok? ==>
              var out := Serialize(m).value;
              var base := 2 + 65 * |m.regions| + 4 * |m.entries|;
              |out| == base + |m.blob| && WordAt(out, 0) == |m.regions|
              && out[2..2 + 65 * |m.regions|] == EncodeRegions(m.regions).value
              && out[2 + 65 * |m.regions|..base] == EncodePairs(m.entries).value
              && out[base..] == WriteEntries(m.blob, m.entries).value
  {
    if Serialize(m).Ok? {
      var rb := EncodeRegions(m.regions).value;
      var pb := EncodePairs(m.entries).value;
      var blob := WriteEntries(m.blob, m.entries).value;
      var w := WordBytes(|m.regions|);
      var out := Serialize(m).value;
      assert out == w + rb + pb + blob;
      assert out[0] == w[0] && out[1] == w[1];
      SliceThree(w, rb, pb, blob);
    }
  }

  /** The parts of a four-way concatenation, by position. */
  lemma SliceThree<T>(a: seq<T>, b: seq<T>, c: seq<T>, d: seq<T>)
    ensures (a + b + c + d)[|a|..|a| + |b|] == b
    ensures (a + b + c + d)[|a| + |b|..|a| + |b| + |c|] == c
    ensures (a + b + c + d)[|a| + |b| + |c|..] == d
    ensures (a + b + c + d)[..|a|] == a
  {
  }

  // ---------------------------------------------------------------------------
  // Load, then save

  /** What a loaded file needs for `save` to write it back unchanged: every region
      header holds a NUL, every unit chunk is whole frames with its empty frames last,
      and every entry starts inside the blob. */
  predicate SavesBack(data: seq<byte>, m: MapData)
  {
    (forall i :: 0 <= i < |m.regions| ==> 0 in Region.HeaderOf(RegionBlock(data, i)))
    && |m.entries| == PointerSlots
    && (forall k :: 0 <= k < |UnitSlots| ==> ChunkPacks(m.entries[UnitSlots[k]].data))
    && forall i :: 0 <= i < |m.entries| ==> m.entries[i].start <= |m.blob|
  }

  /** A unit chunk that parses and rebuilds to itself. */
  predicate ChunkPacks(chunk: seq<byte>)
  {
    |chunk| % 32 == 0 && Units.ZerosLast(chunk, Units.SlotCount(|chunk|))
  }

  /** Loading a file and saving it again gives back the same bytes, when every region
      header holds a NUL, every unit chunk packs, and every entry starts inside the blob. */
  lemma LoadSaveRoundTrip(data: seq<byte>, icons: map<string, seq<Option<int>>>)
    requires LoadData(data, icons).Ok? && SavesBack(data, LoadData(data, icons).value)
    ensures SaveData(LoadData(data, icons).value) == Ok(data)
  {
    var m := LoadData(data, icons).value;
    var count, pairs := LoadParts(data, icons);
    SavedParts(data, icons, m, count, pairs);
  }

  /** A file read into `m` part by part, that saves back, saves to the bytes it was read from. */
  lemma SavedParts(data: seq<byte>, icons: map<string, seq<Option<int>>>, m: MapData, count: nat, pairs: seq<PointerPair>)
    requires 2 + 65 * count + 64 <= |data| && count == WordAt(data, 0) && count == |m.regions|
    requires ParseRegions(data, count) == Ok(m.regions)
    requires ReadPairs(data, 2 + 65 * count, PointerSlots).Ok? && pairs == ReadPairs(data, 2 + 65 * count, PointerSlots).value
    requires m.entries == Entries(data, 2 + 65 * count + 64, pairs)
    requires m.tables == TablesOf(m.entries, icons)
    requires m.blob == data[2 + 65 * count + 64..]
    requires SavesBack(data, m)
    ensures SaveData(m) == Ok(data)
  {
    SerializedBack(data, m, count, pairs);
    SyncLoaded(m, icons);
  }

  /** Serialising the parts read from a file that saves back gives the file. */
  lemma SerializedBack(data: seq<byte>, m: MapData, count: nat, pairs: seq<PointerPair>)
    requires 2 + 65 * count + 64 <= |data| && count == WordAt(data, 0) && count == |m.regions|
    requires ParseRegions(data, count) == Ok(m.regions)
    requires ReadPairs(data, 2 + 65 * count, PointerSlots).Ok? && pairs == ReadPairs(data, 2 + 65 * count, PointerSlots).value
    requires m.entries == Entries(data, 2 + 65 * count + 64, pairs)
    requires m.blob == data[2 + 65 * count + 64..]
    requires SavesBack(data, m)
    ensures Serialize(m) == Ok(data)
  {
    var off := 2 + 65 * count;
    RegionsBack(data, m, count);
    EntriesBack(data, m, count, pairs);
    WordBytesAt(data, 0);
    assert data[0..2] == data[..2];
    assert |m.regions| < 0x1_0000;
    assert EncodeRegions(m.regions) == Ok(data[2..off]);
    assert EncodePairs(m.entries) == Ok(data[off..off + 64]);
    assert forall i :: 0 <= i < |m.entries| ==> m.entries[i].start >= 0;
    assert WriteEntries(m.blob, m.entries) == Ok(m.blob);
    SerializeParts(m, data[2..off], data[off..off + 64]);
    Units.SliceJoin4(data, 2, off, off + 64);
    assert WordBytes(|m.regions|) == data[..2];
    assert m.blob == data[off + 64..];
    assert data == WordBytes(|m.regions|) + data[2..off] + data[off..off + 64] + m.blob;
  }

  /** The regions of a loaded file that saves back encode to the bytes they were read from. */
  lemma RegionsBack(data: seq<byte>, m: MapData, count: nat)
    requires 2 + 65 * count + 64 <= |data| && count == |m.regions|
    requires ParseRegions(data, count) == Ok(m.regions)
    requires SavesBack(data, m)
    ensures EncodeRegions(m.regions) == Ok(data[2..2 + 65 * count])
  {
    forall i | 0 <= i < count
      ensures 0 in Region.HeaderOf(RegionBlock(data, i))
    {
      assert i < |m.regions|;
    }
    RegionsWriteBack(data, count);
  }

  /** The entries of a loaded file that saves back encode to its pointer table, and
      writing them into the blob leaves it as it was. */
  lemma EntriesBack(data: seq<byte>, m: MapData, count: nat, pairs: seq<PointerPair>)
    requires 2 + 65 * count + 64 <= |data|
    requires ReadPairs(data, 2 + 65 * count, PointerSlots).Ok? && pairs == ReadPairs(data, 2 + 65 * count, PointerSlots).value
    requires m.entries == Entries(data, 2 + 65 * count + 64, pairs)
    requires m.blob == data[2 + 65 * count + 64..]
    requires SavesBack(data, m)
    ensures EncodePairs(m.entries) == Ok(data[2 + 65 * count..2 + 65 * count + 64])
    ensures forall i :: 0 <= i < |m.entries| ==> m.entries[i].start >= 0
    ensures WriteEntries(m.blob, m.entries) == Ok(m.blob)
  {
    var off := 2 + 65 * count;
    var base := off + 64;
    PairsWriteBack(data, off, base);
    BlobBack(data, m, base, pairs);
  }

  /** Entries that start inside the blob write it back unchanged. */
  lemma BlobBack(data: seq<byte>, m: MapData, base: nat, pairs: seq<PointerPair>)
    requires base <= |data| && |pairs| == PointerSlots
    requires m.entries == Entries(data, base, pairs) && m.blob == data[base..]
    requires SavesBack(data, m)
    ensures forall i :: 0 <= i < |m.entries| ==> m.entries[i].start >= 0
    ensures WriteEntries(m.blob, m.entries) == Ok(m.blob)
  {
    forall i | 0 <= i < PointerSlots
      ensures pairs[i].start <= |data| - base
    {
      EntryFields(data, base, pairs, i);
      assert m.entries[i].start <= |m.blob|;
    }
    BlobWritesBack(data, base, pairs);
  }

  /** The regions of a loaded file whose headers hold a NUL encode back to their records. */
  lemma RegionsWriteBack(data: seq<byte>, count: nat)
    requires ParseRegions(data, count).Ok? && 2 + 65 * count <= |data|
    requires forall i :: 0 <= i < count ==> 0 in Region.HeaderOf(RegionBlock(data, i))
    ensures EncodeRegions(ParseRegions(data, count).value) == Ok(data[2..2 + 65 * count])
  {
    var rs := ParseRegions(data, count).value;
    forall i | 0 <= i < count
      ensures Region.Encode(rs[i]) == Ok(data[2 + 65 * i..2 + 65 * i + 65])
    {
      EncodeParsedRegion(data, count, i);
    }
    EncodeEachRegion(data, rs, count);
    assert rs[..count] == rs;
  }

  /** The pointer table of a loaded file packs back to its bytes. */
  lemma PairsWriteBack(data: seq<byte>, off: nat, base: nat)
    requires ReadPairs(data, off, PointerSlots).Ok?
    ensures off + 4 * PointerSlots <= |data|
    ensures EncodePairs(Entries(data, base, ReadPairs(data, off, PointerSlots).value)) == Ok(data[off..off + 4 * PointerSlots])
  {
    var pairs := ReadPairs(data, off, PointerSlots).value;
    ReadPairsSpec(data, off, PointerSlots);
    var es := Entries(data, base, pairs);
    forall i | 0 <= i < PointerSlots
      ensures es[i].start == WordAt(data, off + 4 * i) && es[i].count == WordAt(data, off + 4 * i + 2)
    {
      EntryFields(data, base, pairs, i);
    }
    EncodeReadPairs(data, es, off, PointerSlots);
    assert es[..PointerSlots] == es;
  }

  /** Loaded entries that start inside the blob write it back unchanged. */
  lemma BlobWritesBack(data: seq<byte>, base: nat, pairs: seq<PointerPair>)
    requires base <= |data| && forall i :: 0 <= i < |pairs| ==> pairs[i].start <= |data| - base
    ensures WriteEntries(data[base..], Entries(data, base, pairs)) == Ok(data[base..])
  {
    var es := Entries(data, base, pairs);
    var blob := data[base..];
    forall i | 0 <= i < |pairs|
      ensures 0 <= es[i].start && es[i].start + |es[i].data| <= |blob| && es[i].length == |es[i].data|
              && es[i].data == blob[es[i].start..es[i].start + |es[i].data|]
    {
      EntryExtent(data, base, pairs, i);
    }
    WriteEntriesSame(blob, es);
  }

  /** The parts of a loaded file, by name. */
  lemma LoadParts(data: seq<byte>, icons: map<string, seq<Option<int>>>) returns (count: nat, pairs: seq<PointerPair>)
    requires LoadData(data, icons).Ok?
    ensures 2 + 65 * count + 64 <= |data| && count == WordAt(data, 0)
    ensures ReadPairs(data, 2 + 65 * count, PointerSlots).Ok? && pairs == ReadPairs(data, 2 + 65 * count, PointerSlots).value
    ensures var m := LoadData(data, icons).value;
            count == |m.regions| && ParseRegions(data, count) == Ok(m.regions)
            && m.entries == Entries(data, 2 + 65 * count + 64, pairs)
            && m.tables == TablesOf(m.entries, icons)
            && m.blob == data[2 + 65 * count + 64..]
  {
    count := WordAt(data, 0);
    ReadPairsSpec(data, 2 + 65 * count, PointerSlots);
    pairs := ReadPairs(data, 2 + 65 * count, PointerSlots).value;
  }

  /** Unit tables loaded from packing chunks rebuild to them, so `save`'s sync changes
      nothing and saving is serialising. */
  lemma SyncLoaded(m: MapData, icons: map<string, seq<Option<int>>>)
    requires |m.entries| == PointerSlots && m.tables == TablesOf(m.entries, icons)
    requires forall k :: 0 <= k < |UnitSlots| ==> ChunkPacks(m.entries[UnitSlots[k]].data)
    ensures SaveData(m) == Serialize(m)
  {
    forall k | 0 <= k < |m.tables|
      ensures Units.Rebuild(m.tables[k].units, m.tables[k].maxSlots) == Ok(m.entries[UnitSlots[k]].data)
    {
      var chunk := m.entries[UnitSlots[k]].data;
      var templates := if UnitKinds[k] in icons then icons[UnitKinds[k]] else [];
      WithIconsRebuild(Units.ParseUnitTable(chunk), templates, Units.SlotCount(|chunk|));
      Units.ParseRebuild(chunk);
    }
    SyncUnchanged(m.entries, m.tables, 0);
    assert m.(entries := m.entries) == m;
  }

  /** `Serialize` from its parts. */
  lemma SerializeParts(m: MapData, rb: seq<byte>, pb: seq<byte>)
    requires |m.regions| < 0x1_0000 && EncodeRegions(m.regions) == Ok(rb) && EncodePairs(m.entries) == Ok(pb)
    requires forall i :: 0 <= i < |m.entries| ==> m.entries[i].start >= 0
    requires WriteEntries(m.blob, m.entries) == Ok(m.blob)
    ensures Serialize(m) == Ok(WordBytes(|m.regions|) + rb + pb + m.blob)
  {
  }

  /** One more region. */
  lemma EncodeRegionsPrefix(rs: seq<Region.RegionData>, n: nat)
    requires n < |rs|
    ensures EncodeRegions(rs[..n]).Ok? && Region.Encode(rs[n]).Ok? ==>
              EncodeRegions(rs[..n + 1]) == Ok(EncodeRegions(rs[..n]).value + Region.Encode(rs[n]).value)
  {
    assert rs[..n + 1][..n] == rs[..n];
  }

  /** One more pair. */
  lemma EncodePairsPrefix(es: seq<Units.EntryData>, n: nat)
    requires n < |es|
    ensures EncodePairs(es[..n]).Ok? && PairBytes(es[n]).Ok? ==>
              EncodePairs(es[..n + 1]) == Ok(EncodePairs(es[..n]).value + PairBytes(es[n]).value)
  {
    assert es[..n + 1][..n] == es[..n];
  }

  /** Regions that each encode to their own record encode, together, to the records in
      a row. */
  lemma {:induction false} EncodeEachRegion(data: seq<byte>, rs: seq<Region.RegionData>, n: nat)
    requires n <= |rs| && 2 + 65 * |rs| <= |data|
    requires forall i :: 0 <= i < |rs| ==> Region.Encode(rs[i]) == Ok(data[2 + 65 * i..2 + 65 * i + 65])
    ensures EncodeRegions(rs[..n]) == Ok(data[2..2 + 65 * n])
  {
    if n > 0 {
      EncodeEachRegion(data, rs, n - 1);
      EncodeRegionsPrefix(rs, n - 1);
      SliceJoin(data, 2, 2 + 65 * (n - 1), 2 + 65 * n);
    } else {
      assert rs[..0] == [];
      assert data[2..2] == [];
    }
  }

  /** A loaded region whose header holds a NUL encodes to its record. */
  lemma EncodeParsedRegion(data: seq<byte>, n: nat, i: nat)
    requires ParseRegions(data, n).Ok? && 2 + 65 * n <= |data| && i < n
    requires 0 in Region.HeaderOf(RegionBlock(data, i))
    ensures Region.Encode(ParseRegions(data, n).value[i]) == Ok(data[2 + 65 * i..2 + 65 * i + 65])
  {
    ParseRegionAt(data, n, i);
    var block := RegionBlock(data, i);
    assert block == data[2 + 65 * i..2 + 65 * i + 65];
    Region.RoundTrip(block, i);
  }

  /** Entries whose starts and counts were read from a table pack back to its bytes. */
  lemma {:induction false} EncodeReadPairs(data: seq<byte>, es: seq<Units.EntryData>, off: nat, n: nat)
    requires n <= |es| && off + 4 * |es| <= |data|
    requires forall i :: 0 <= i < |es| ==>
               off + 4 * i + 4 <= |data| && es[i].start == WordAt(data, off + 4 * i) && es[i].count == WordAt(data, off + 4 * i + 2)
    ensures EncodePairs(es[..n]) == Ok(data[off..off + 4 * n])
  {
    if n > 0 {
      EncodeReadPairs(data, es, off, n - 1);
      var e := es[n - 1];
      var at := off + 4 * (n - 1);
      WordBytesAt(data, at);
      WordBytesAt(data, at + 2);
      var pair := data[at..at + 2] + data[at + 2..at + 4];
      assert PairBytes(e) == Ok(pair);
      EncodePairsPrefix(es, n - 1);
      SliceJoin(data, at, at + 2, at + 4);
      SliceJoin(data, off, at, at + 4);
    } else {
      assert es[..0] == [];
      assert data[off..off] == [];
    }
  }
}
