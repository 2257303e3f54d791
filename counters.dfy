// The counter sprite-sheet extractor: the resource table of MAINLIB.GXL (NUL-terminated
// names, each ".PCX" name followed by a little-endian offset and length) and the 32x32
// tile grid cut out of the sheet.

module Counters {
  import opened Bytes
  import Gxl

  /** The struct.error raised when an offset/length pair runs past the end of the blob. */
  const ShortPair: string := "unpack_from requires a buffer of at least 4 bytes"

  /** The size of one counter tile, in pixels. */
  const TileSize: nat := 32

  datatype Resource = Resource(offset: u32, length: u32)

  type Table = map<seq<byte>, Resource>

  // ---------------------------------------------------------------------------
  // One step of `load_resource_table`

  /** What one turn of the loop does at cursor `idx`: stop (no NUL left), skip a name that
      is not a ".PCX" name, read a ".PCX" entry, or fail on a pair cut off by the end. */
  datatype Step =
    | Stop
    | Skip(term: nat)
    | Entry(term: nat, name: seq<byte>, res: Resource)
    | Truncated(term: nat)

  /** The cursor after a step that continues. */
  function Next(s: Step): nat
    requires s.Skip? || s.Entry?
  {
    if s.Skip? then s.term + 1 else s.term + 9
  }

  function StepAt(blob: seq<byte>, idx: nat): (r: Step)
    ensures (r.Skip? || r.Entry?) ==> idx < Next(r) <= |blob|
  {
    match IndexOf(blob, 0, idx)
    case None => Stop
    case Some(t) => NameStep(blob, idx, t)
  }

  /** The step for the name `blob[idx..t]` whose NUL is at `t`. */
  function NameStep(blob: seq<byte>, idx: nat, t: nat): (r: Step)
    requires idx <= t < |blob|
    ensures !r.Stop? && r.term == t
  {
    var name := blob[idx..t];
    if !EndsWith(name, Gxl.PcxSuffix) then Skip(t)
    else if t + 9 > |blob| then Truncated(t)
    else Entry(t, Strip(name), Resource(U32At(blob, t + 1), U32At(blob, t + 5)))
  }

  /** A step stops exactly when no NUL is left; otherwise it reads the name up to the first
      NUL, and it records the name, stripped, with the two words after the NUL exactly when
      the name ends in ".PCX" and the words fit. */
  lemma StepSpec(blob: seq<byte>, idx: nat)
    ensures var r := StepAt(blob, idx);
            && (r.Stop? <==> forall j :: idx <= j < |blob| ==> blob[j] != 0)
            && (!r.Stop? ==> idx <= r.term < |blob| && blob[r.term] == 0
                             && forall j :: idx <= j < r.term ==> blob[j] != 0)
            && ((r.Entry? || r.Truncated?) <==> !r.Stop? && EndsWith(blob[idx..r.term], Gxl.PcxSuffix))
            && (r.Entry? ==> r.term + 9 <= |blob|
                             && r.name == Strip(blob[idx..r.term])
                             && r.res == Resource(U32At(blob, r.term + 1), U32At(blob, r.term + 5)))
            && (r.Truncated? ==> r.term + 9 > |blob|)
  {
  }

  /** One turn of the loop body: find the NUL, then read the name before it. */
  method ReadStep(blob: seq<byte>, idx: nat) returns (s: Step)
    ensures s == StepAt(blob, idx)
  {
    var terminator := IndexOf(blob, 0, idx);
    if terminator.None? {
      s := Stop;
    } else {
      s := ReadName(blob, idx, terminator.value);
    }
  }

  /** The name up to the NUL at `t`: test its suffix and unpack the pair that follows. */
  method ReadName(blob: seq<byte>, idx: nat, t: nat) returns (s: Step)
    requires idx <= t < |blob|
    ensures s == NameStep(blob, idx, t)
  {
    var name := blob[idx..t];
    var next := t + 1;
    if !EndsWith(name, Gxl.PcxSuffix) {
      s := Skip(t);
    } else if next + 8 > |blob| {
      s := Truncated(t);
    } else {
      var offset := U32At(blob, next);
      var length := U32At(blob, next + 4);
      s := Entry(t, Strip(name), Resource(offset, length));
    }
  }

  // ---------------------------------------------------------------------------
  // The table

  /** The ".PCX" entries from cursor `idx` on, in file order. */
  function EntriesFrom(blob: seq<byte>, idx: nat): Result<seq<(seq<byte>, Resource)>>
    decreases |blob| - idx
  {
    if idx >= |blob| then Ok([])
    else
      var s := StepAt(blob, idx);
      match s
      case Stop => Ok([])
      case Truncated(_) => Err(ShortPair)
      case Skip(_) => EntriesFrom(blob, Next(s))
      case Entry(_, name, res) =>
        match EntriesFrom(blob, Next(s))
        case Err(e) => Err(e)
        case Ok(rest) => Ok([(name, res)] + rest)
  }

  /** `acc` updated with the entries in order, so a later entry of a name replaces an
      earlier one. */
  function Apply(acc: Table, es: seq<(seq<byte>, Resource)>): Table
    decreases |es|
  {
    if es == [] then acc else Apply(acc[es[0].0 := es[0].1], es[1..])
  }

  /** The table still to be filled in when the loop reaches `idx` with `acc` so far. */
  function TableFrom(blob: seq<byte>, idx: nat, acc: Table): Result<Table>
  {
    match EntriesFrom(blob, idx)
    case Err(e) => Err(e)
    case Ok(es) => Ok(Apply(acc, es))
  }

  /** `load_resource_table`: the name-to-(offset, length) table of the blob. */
  function ResourceTable(blob: seq<byte>): Result<Table>
  {
    TableFrom(blob, 0, map[])
  }

  // ---------------------------------------------------------------------------
  // Properties of the table

  /** The name of an entry is stripped and still ends in ".PCX". */
  lemma StrippedNameEndsInPcx(name: seq<byte>)
    requires EndsWith(name, Gxl.PcxSuffix)
    ensures EndsWith(Strip(name), Gxl.PcxSuffix)
  {
    var head := name[..|name| - 4];
    assert name == head + Gxl.PcxSuffix;
    Gxl.SuffixNotWhitespace();
    Gxl.LStripKeepsSuffix(head, Gxl.PcxSuffix);
    var l := LStrip(name);
    assert l[|l| - 1] == Gxl.PcxSuffix[3];
    Gxl.RStripKeeps(l);
  }

  /** Every entry names a ".PCX" resource. */
  predicate AllPcx(es: seq<(seq<byte>, Resource)>)
  {
    forall k :: 0 <= k < |es| ==> EndsWith(es[k].0, Gxl.PcxSuffix)
  }

  lemma AllPcxCons(e: (seq<byte>, Resource), rest: seq<(seq<byte>, Resource)>)
    requires EndsWith(e.0, Gxl.PcxSuffix) && AllPcx(rest)
    ensures AllPcx([e] + rest)
  {
    forall k | 0 <= k < |[e] + rest|
      ensures EndsWith(([e] + rest)[k].0, Gxl.PcxSuffix)
    {
      if k > 0 {
        assert ([e] + rest)[k] == rest[k - 1];
      }
    }
  }

  /** Every entry read names a ".PCX" resource. */
  lemma {:induction false} EntriesSound(blob: seq<byte>, idx: nat)
    ensures EntriesFrom(blob, idx).Ok? ==> AllPcx(EntriesFrom(blob, idx).value)
    decreases |blob| - idx
  {
    if idx < |blob| {
      var s := StepAt(blob, idx);
      if s.Skip? {
        EntriesSound(blob, Next(s));
      } else if s.Entry? {
        EntriesSound(blob, Next(s));
        StepSpec(blob, idx);
        StrippedNameEndsInPcx(blob[idx..s.term]);
        if EntriesFrom(blob, Next(s)).Ok? {
          AllPcxCons((s.name, s.res), EntriesFrom(blob, Next(s)).value);
        }
      }
    }
  }

  /** The last entry of a name decides its value in the table. */
  lemma {:induction false} ApplyLast(acc: Table, es: seq<(seq<byte>, Resource)>, i: nat)
    requires i < |es| && forall j :: i < j < |es| ==> es[j].0 != es[i].0
    ensures es[i].0 in Apply(acc, es) && Apply(acc, es)[es[i].0] == es[i].1
    decreases |es|
  {
    if i == 0 {
      ApplyAbsent(acc[es[0].0 := es[0].1], es[1..], es[0].0);
    } else {
      ApplyLast(acc[es[0].0 := es[0].1], es[1..], i - 1);
    }
  }

  /** A name no entry carries keeps the value it had before. */
  lemma {:induction false} ApplyAbsent(acc: Table, es: seq<(seq<byte>, Resource)>, name: seq<byte>)
    requires forall j :: 0 <= j < |es| ==> es[j].0 != name
    ensures name in Apply(acc, es) <==> name in acc
    ensures name in acc ==> Apply(acc, es)[name] == acc[name]
    decreases |es|
  {
    if es != [] {
      ApplyAbsent(acc[es[0].0 := es[0].1], es[1..], name);
    }
  }

  /** The table holds exactly the names it held before and the names of the entries. */
  lemma {:induction false} ApplyKeys(acc: Table, es: seq<(seq<byte>, Resource)>, name: seq<byte>)
    ensures name in Apply(acc, es) <==> name in acc || exists j :: 0 <= j < |es| && es[j].0 == name
    decreases |es|
  {
    if es != [] {
      ApplyKeys(acc[es[0].0 := es[0].1], es[1..], name);
      if exists j :: 0 <= j < |es| - 1 && es[1..][j].0 == name {
        var j :| 0 <= j < |es| - 1 && es[1..][j].0 == name;
        assert es[j + 1].0 == name;
      }
      if exists j :: 0 <= j < |es| && es[j].0 == name {
        var j :| 0 <= j < |es| && es[j].0 == name;
        if j > 0 {
          assert es[1..][j - 1].0 == name;
        }
      }
    }
  }

  /** The loaded table holds exactly the names the entries carry, and every one of them
      ends in ".PCX". */
  lemma ResourceTableSpec(blob: seq<byte>, name: seq<byte>)
    requires ResourceTable(blob).Ok?
    ensures EntriesFrom(blob, 0).Ok?
    ensures name in ResourceTable(blob).value <==>
      exists j :: 0 <= j < |EntriesFrom(blob, 0).value| && EntriesFrom(blob, 0).value[j].0 == name
    ensures name in ResourceTable(blob).value ==> EndsWith(name, Gxl.PcxSuffix)
  {
    var es := EntriesFrom(blob, 0).value;
    EntriesSound(blob, 0);
    ApplyKeys(map[], es, name);
  }

  /** A name's value in the loaded table is the resource of its last entry. */
  lemma ResourceTableLast(blob: seq<byte>, i: nat)
    requires ResourceTable(blob).Ok?
    ensures EntriesFrom(blob, 0).Ok?
    ensures var es := EntriesFrom(blob, 0).value;
      i < |es| && (forall j :: i < j < |es| ==> es[j].0 != es[i].0) ==>
      es[i].0 in ResourceTable(blob).value && ResourceTable(blob).value[es[i].0] == es[i].1
  {
    var es := EntriesFrom(blob, 0).value;
    if i < |es| && forall j :: i < j < |es| ==> es[j].0 != es[i].0 {
      ApplyLast(map[], es, i);
    }
  }

  // ---------------------------------------------------------------------------
  // The loop

  lemma EntriesStep(blob: seq<byte>, idx: nat, acc: Table)
    requires idx < |blob|
    ensures var s := StepAt(blob, idx);
            && (s.Stop? ==> TableFrom(blob, idx, acc) == Ok(acc))
            && (s.Truncated? ==> TableFrom(blob, idx, acc) == Err(ShortPair))
            && (s.Skip? ==> TableFrom(blob, idx, acc) == TableFrom(blob, Next(s), acc))
            && (s.Entry? ==> TableFrom(blob, idx, acc) == TableFrom(blob, Next(s), acc[s.name := s.res]))
  {
    var s := StepAt(blob, idx);
    if s.Entry? {
      match EntriesFrom(blob, Next(s))
      case Err(e) =>
      case Ok(rest) =>
        var es := [(s.name, s.res)] + rest;
        assert es[0] == (s.name, s.res) && es[1..] == rest;
    }
  }

  /** `load_resource_table`: scan names up to each NUL, recording ".PCX" names with the
      offset and length that follow the NUL; struct.error when that pair is cut off. */
  method LoadResourceTable(blob: seq<byte>) returns (r: Result<Table>)
    ensures r == ResourceTable(blob)
  {
    var entries: Table := map[];
    var idx := 0;
    while idx < |blob|
      invariant TableFrom(blob, idx, entries) == ResourceTable(blob)
      decreases |blob| - idx
    {
      var s := ReadStep(blob, idx);
      EntriesStep(blob, idx, entries);
      match s
      case Stop => return Ok(entries);
      case Truncated(_) => return Err(ShortPair);
      case Skip(_) => idx := Next(s);
      case Entry(_, name, res) =>
        entries := entries[name := res];
        idx := Next(s);
    }
    return Ok(entries);
  }

  // ---------------------------------------------------------------------------
  // The tile grid of `slice_tiles`

  /** A crop box (left, top, right, bottom), right and bottom exclusive. */
  datatype Box = Box(left: nat, top: nat, right: nat, bottom: nat)

  datatype Tile = Tile(row: nat, col: nat, box: Box)

  function TileAt(row: nat, col: nat): (t: Tile)
    ensures t.row == row && t.col == col
    ensures t.box.right - t.box.left == TileSize && t.box.bottom - t.box.top == TileSize
  {
    Tile(row, col, Box(col * TileSize, row * TileSize, col * TileSize + TileSize, row * TileSize + TileSize))
  }

  /** The first `cols` tiles of one grid row, left to right. */
  function RowTiles(row: nat, cols: nat): (ts: seq<Tile>)
    ensures |ts| == cols
  {
    seq(cols, c requires 0 <= c => TileAt(row, c))
  }

  /** The tiles of the first `rows` rows, row by row. */
  function Grid(rows: nat, cols: nat): (ts: seq<Tile>)
  {
    if rows == 0 then [] else Grid(rows - 1, cols) + RowTiles(rows - 1, cols)
  }

  /** The grid of a `width` by `height` sheet: whole tiles only. */
  function SheetGrid(width: nat, height: nat): seq<Tile>
  {
    Grid(height / TileSize, width / TileSize)
  }

  /** The tiles `getbbox` finds content in, in grid order. */
  function NonBlank(ts: seq<Tile>, blank: (nat, nat) -> bool): (r: seq<Tile>)
    ensures |r| <= |ts|
  {
    if ts == [] then []
    else if blank(ts[|ts| - 1].row, ts[|ts| - 1].col) then NonBlank(ts[..|ts| - 1], blank)
    else NonBlank(ts[..|ts| - 1], blank) + [ts[|ts| - 1]]
  }

  /** Before in row-major order. */
  predicate Before(a: Tile, b: Tile)
  {
    a.row < b.row || (a.row == b.row && a.col < b.col)
  }

  /** The grid holds every (row, col) below (rows, cols) once, in row-major order, each
      tile at its 32x32 box. */
  lemma {:induction false} GridSpec(rows: nat, cols: nat)
    ensures |Grid(rows, cols)| == rows * cols
    ensures forall k :: 0 <= k < |Grid(rows, cols)| ==>
              var t := Grid(rows, cols)[k];
              t.row < rows && t.col < cols && t == TileAt(t.row, t.col)
    ensures forall i, j :: 0 <= i < j < |Grid(rows, cols)| ==> Before(Grid(rows, cols)[i], Grid(rows, cols)[j])
  {
    if rows > 0 {
      GridSpec(rows - 1, cols);
      var g := Grid(rows - 1, cols);
      var rt := RowTiles(rows - 1, cols);
      assert Grid(rows, cols) == g + rt;
      assert |g + rt| == (rows - 1) * cols + cols == rows * cols;
      forall i, j | 0 <= i < j < |g + rt|
        ensures Before((g + rt)[i], (g + rt)[j])
      {
        if j < |g| {
        } else if i < |g| {
          assert g[i].row < rows - 1;
        } else {
          assert (g + rt)[i] == rt[i - |g|] && (g + rt)[j] == rt[j - |g|];
        }
      }
    }
  }

  /** Every (row, col) of the grid has its tile in it. */
  lemma {:induction false} GridComplete(rows: nat, cols: nat, row: nat, col: nat)
    requires row < rows && col < cols
    ensures TileAt(row, col) in Grid(rows, cols)
  {
    var g := Grid(rows - 1, cols);
    var rt := RowTiles(rows - 1, cols);
    assert Grid(rows, cols) == g + rt;
    if row == rows - 1 {
      assert rt[col] == TileAt(row, col);
      assert (g + rt)[|g| + col] == TileAt(row, col);
    } else {
      GridComplete(rows - 1, cols, row, col);
      var k :| 0 <= k < |g| && g[k] == TileAt(row, col);
      assert (g + rt)[k] == TileAt(row, col);
    }
  }

  /** Every box of the sheet's grid lies inside the sheet, and two different tiles have
      boxes that do not overlap. */
  lemma SheetBoxes(width: nat, height: nat)
    ensures forall t :: t in SheetGrid(width, height) ==> t.box.right <= width && t.box.bottom <= height
    ensures forall t, u :: t in SheetGrid(width, height) && u in SheetGrid(width, height) && t != u ==>
              t.box.right <= u.box.left || u.box.right <= t.box.left
              || t.box.bottom <= u.box.top || u.box.bottom <= t.box.top
  {
    GridSpec(height / 32, width / 32);
  }

  lemma {:induction false} NonBlankAppend(a: seq<Tile>, b: seq<Tile>, blank: (nat, nat) -> bool)
    ensures NonBlank(a + b, blank) == NonBlank(a, blank) + NonBlank(b, blank)
    decreases |b|
  {
    if b == [] {
      assert a + b == a;
    } else {
      var b' := b[..|b| - 1];
      assert (a + b)[..|a + b| - 1] == a + b';
      NonBlankAppend(a, b', blank);
    }
  }

  /** The tiles kept are exactly the grid's tiles with content, in grid order. */
  lemma {:induction false} NonBlankSpec(ts: seq<Tile>, blank: (nat, nat) -> bool, t: Tile)
    ensures t in NonBlank(ts, blank) <==> t in ts && !blank(t.row, t.col)
  {
    if ts != [] {
      NonBlankSpec(ts[..|ts| - 1], blank, t);
      assert ts == ts[..|ts| - 1] + [ts[|ts| - 1]];
    }
  }

  /** `slice_tiles` over the grid arithmetic: row by row and column by column, crop each
      32x32 box and save it unless it is blank; `tileIndex` counts the saved tiles. The
      pixels themselves are not modelled: `blank` says which tiles `getbbox` finds empty. */
  method SliceTiles(width: nat, height: nat, blank: (nat, nat) -> bool) returns (saved: seq<Tile>, tileIndex: nat)
    ensures saved == NonBlank(SheetGrid(width, height), blank)
    ensures tileIndex == |saved|
  {
    var cols := width / TileSize;
    var rows := height / TileSize;
    saved := [];
    tileIndex := 0;
    var row := 0;
    while row < rows
      invariant row <= rows
      invariant saved == NonBlank(Grid(row, cols), blank) && tileIndex == |saved|
    {
      saved, tileIndex := SliceRow(row, cols, blank, saved, tileIndex);
      NonBlankAppend(Grid(row, cols), RowTiles(row, cols), blank);
      row := row + 1;
    }
  }

  /** The inner loop of `slice_tiles`: the tiles of one row, left to right. */
  method SliceRow(row: nat, cols: nat, blank: (nat, nat) -> bool, saved0: seq<Tile>, count0: nat)
    returns (saved: seq<Tile>, tileIndex: nat)
    requires count0 == |saved0|
    ensures saved == saved0 + NonBlank(RowTiles(row, cols), blank) && tileIndex == |saved|
  {
    saved, tileIndex := saved0, count0;
    var col := 0;
    assert RowTiles(row, 0) == [];
    while col < cols
      invariant col <= cols
      invariant saved == saved0 + NonBlank(RowTiles(row, col), blank) && tileIndex == |saved|
    {
      var left := col * TileSize;
      var top := row * TileSize;
      var tile := Tile(row, col, Box(left, top, left + TileSize, top + TileSize));
      assert RowTiles(row, col + 1) == RowTiles(row, col) + [tile];
      NonBlankAppend(RowTiles(row, col), [tile], blank);
      assert [tile][..0] == [];
      if !blank(row, col) {
        saved := saved + [tile];
        tileIndex := tileIndex + 1;
      }
      col := col + 1;
    }
  }
}
