/** The GXL archive scanner (editor/gxl.py): a walk over the directory of a Genus
    Microprogramming archive that looks for ".PCX\0" markers, recovers the file name before
    each marker and the (offset, size) pair after it, and keeps the entries whose data is
    a ZSoft PCX image. */
module Gxl {
  import opened Bytes

  /** ".PCX" followed by its NUL. */
  const PcxMarker: seq<byte> := [0x2E, 0x50, 0x43, 0x58, 0]
  /** ".PCX". */
  const PcxSuffix: seq<byte> := [0x2E, 0x50, 0x43, 0x58]
  /** Scanning starts past the copyright header. */
  const DirectoryStart: nat := 0x80
  /** Past this position a miss ends the scan. */
  const DirectoryLimit: nat := 10000
  const MaxNameBack: nat := 20
  const MaxEntrySize: nat := 1000000
  /** The first byte of a ZSoft PCX image. */
  const PcxMagic: byte := 0x0A

  datatype GxlEntry = GxlEntry(name: seq<byte>, offset: nat, size: nat, data: seq<byte>)

  // ---------------------------------------------------------------------------
  // The file name before a marker

  /** `bytes.decode("ascii", errors="ignore")`: the bytes below 0x80, in order. */
  function AsciiOnly(s: seq<byte>): (r: seq<byte>)
    ensures |r| <= |s|
  {
    if s == [] then [] else (if s[0] < 0x80 then [s[0]] else []) + AsciiOnly(s[1..])
  }

  lemma {:induction false} AsciiOnlyAppend(a: seq<byte>, b: seq<byte>)
    ensures AsciiOnly(a + b) == AsciiOnly(a) + AsciiOnly(b)
  {
    if a == [] {
      assert a + b == b;
    } else {
      assert (a + b)[0] == a[0];
      assert (a + b)[1..] == a[1..] + b;
      AsciiOnlyAppend(a[1..], b);
      AppendAssoc3(if a[0] < 0x80 then [a[0]] else [], AsciiOnly(a[1..]), AsciiOnly(b));
    }
  }

  /** The walk back from the marker: the start of the name, stopping after a NUL, at the
      cursor, or once more than 20 bytes back. */
  function NameStart(blob: seq<byte>, pos: nat, pcx: nat, ns: nat): (r: nat)
    requires ns <= pcx <= |blob|
    ensures r <= ns && (r < ns ==> r >= pos)
    decreases ns
  {
    if ns > pos && blob[ns - 1] != 0 then
      if pcx - (ns - 1) > MaxNameBack then ns - 1 else NameStart(blob, pos, pcx, ns - 1)
    else ns
  }

  /** A start that passes the checks of `load_gxl_archive` lies within 20 bytes of the
      marker, after the cursor, right after a NUL, and nothing between it and the marker is
      NUL. */
  lemma {:induction false} NameStartSpec(blob: seq<byte>, pos: nat, pcx: nat, ns: nat)
    requires ns <= pcx <= |blob| && pcx - ns <= MaxNameBack
    requires forall j :: ns <= j < pcx ==> blob[j] != 0
    ensures var r := NameStart(blob, pos, pcx, ns);
            pcx - r <= MaxNameBack && r > pos ==> blob[r - 1] == 0 && forall j :: r <= j < pcx ==> blob[j] != 0
    decreases ns
  {
    if ns > pos && blob[ns - 1] != 0 && pcx - (ns - 1) <= MaxNameBack {
      NameStartSpec(blob, pos, pcx, ns - 1);
    }
  }

  /** The inner `while` of `load_gxl_archive`. */
  method FindNameStart(blob: seq<byte>, pos: nat, pcx: nat) returns (nameStart: nat)
    requires pcx <= |blob|
    ensures nameStart == NameStart(blob, pos, pcx, pcx)
  {
    nameStart := pcx;
    while nameStart > pos && blob[nameStart - 1] != 0
      invariant nameStart <= pcx
      invariant NameStart(blob, pos, pcx, pcx) == NameStart(blob, pos, pcx, nameStart)
      decreases nameStart
    {
      nameStart := nameStart - 1;
      if pcx - nameStart > MaxNameBack {
        break;
      }
    }
  }

  /** The decoded name: the ASCII bytes from the name start through ".PCX", stripped. */
  function EntryName(blob: seq<byte>, ns: nat, pcx: nat): seq<byte>
    requires ns <= pcx && pcx + 4 <= |blob|
  {
    Strip(AsciiOnly(blob[ns..pcx + 4]))
  }

  /** Stripping keeps a suffix that starts with no whitespace. */
  lemma LStripKeepsSuffix(a: seq<byte>, b: seq<byte>)
    requires b != [] && b[0] !in Whitespace
    ensures var r := LStrip(a + b);
            |r| >= |b| && r[|r| - |b|..] == b
  {
    var s := a + b;
    var r := LStrip(s);
    assert s[|a|] == b[0];
    assert r[|r| - |b|..] == s[|s| - |b|..];
  }

  lemma SuffixNotWhitespace()
    ensures PcxSuffix[0] !in Whitespace && PcxSuffix[3] !in Whitespace
  {
  }

  lemma RStripKeeps(s: seq<byte>)
    requires s != [] && s[|s| - 1] !in Whitespace
    ensures RStrip(s, Whitespace) == s
  {
  }

  lemma AsciiOnlySuffix()
    ensures AsciiOnly(PcxSuffix) == PcxSuffix
  {
    var s := PcxSuffix;
    assert s[1..][1..][1..][1..] == [];
  }

  /** The name always ends in ".PCX", so the length check that follows never rejects it. */
  lemma EntryNameEndsInPcx(blob: seq<byte>, ns: nat, pcx: nat)
    requires ns <= pcx && IsAt(blob, PcxMarker, pcx)
    ensures EndsWith(EntryName(blob, ns, pcx), PcxSuffix) && |EntryName(blob, ns, pcx)| >= 4
  {
    var head := blob[ns..pcx];
    assert blob[ns..pcx + 4] == head + PcxSuffix by {
      assert blob[pcx..pcx + 4] == blob[pcx..pcx + 5][..4];
    }
    AsciiOnlyAppend(head, PcxSuffix);
    AsciiOnlySuffix();
    var s := AsciiOnly(head) + PcxSuffix;
    assert AsciiOnly(blob[ns..pcx + 4]) == s;
    var l := LStrip(s);
    SuffixNotWhitespace();
    LStripKeepsSuffix(AsciiOnly(head), PcxSuffix);
    assert l[|l| - 1] == PcxSuffix[3];
    RStripKeeps(l);
    assert EntryName(blob, ns, pcx) == l;
  }

  // ---------------------------------------------------------------------------
  // The scan

  /** What one pass of the loop body does at `pos`: an entry it keeps, if any, and where
      the cursor goes next (none when the loop breaks). */
  datatype Step = Step(found: Option<GxlEntry>, next: Option<nat>)

  /** The loop body from `data_pos` on: the (offset, size) pair after the marker at `pcx`,
      and the entry when it lies inside the archive and holds a PCX image. */
  function EntryStep(blob: seq<byte>, pcx: nat, name: seq<byte>): (r: Step)
    ensures r.next.Some? ==> r.next.value > pcx
  {
    var dataPos := pcx + 5;
    if dataPos + 8 > |blob| then Step(None, None)
    else
      var offset := U32At(blob, dataPos);
      var size := U32At(blob, dataPos + 4);
      if size == 0 || size > MaxEntrySize || offset > |blob| || offset + size > |blob| then
        Step(None, Some(pcx + 5))
      else
        var data := blob[offset..offset + size];
        var found := if |data| > 0 && data[0] == PcxMagic then Some(GxlEntry(name, offset, size, data)) else None;
        Step(found, Some(dataPos + 8))
  }

  /** The loop body once a marker is found at `pcx`: the name checks, then `EntryStep`. */
  function MarkerStep(blob: seq<byte>, pos: nat, pcx: nat): (r: Step)
    requires pcx + 5 <= |blob|
    ensures r.next.Some? ==> r.next.value > pcx
  {
    var ns := NameStart(blob, pos, pcx, pcx);
    if pcx - ns > MaxNameBack || ns <= pos then Step(None, Some(pcx + 5))
    else
      var name := EntryName(blob, ns, pcx);
      if name == [] || |name| < 4 then Step(None, Some(pcx + 5))
      else EntryStep(blob, pcx, name)
  }

  /** One pass of the loop body at cursor `pos`. */
  function StepAt(blob: seq<byte>, pos: nat): (r: Step)
    ensures r.next.Some? ==> r.next.value > pos
  {
    match FindIn(blob, PcxMarker, pos, pos + 100)
    case None => if pos + 1 > DirectoryLimit then Step(None, None) else Step(None, Some(pos + 1))
    case Some(pcx) => MarkerStep(blob, pos, pcx)
  }

  /** `load_gxl_archive` from cursor `pos`: the entries the loop collects until the cursor
      reaches 30 bytes before the end or the loop breaks. */
  function ScanFrom(blob: seq<byte>, pos: nat): seq<GxlEntry>
    decreases |blob| - pos
  {
    if pos >= |blob| - 30 then []
    else
      var st := StepAt(blob, pos);
      (if st.found.Some? then [st.found.value] else [])
      + (if st.next.Some? then ScanFrom(blob, st.next.value) else [])
  }

  /** `load_gxl_archive` over the archive bytes. */
  function LoadGxl(blob: seq<byte>): seq<GxlEntry>
  {
    ScanFrom(blob, DirectoryStart)
  }

  /** Where the walk back from the marker at `p` may stop and keep a name: just after a
      NUL at most 20 bytes before the marker, with no NUL between there and the marker. */
  ghost predicate WalkStart(blob: seq<byte>, ns: nat, p: nat)
  {
    0 < ns <= p <= |blob| && p - ns <= MaxNameBack && blob[ns - 1] == 0
    && forall j :: ns <= j < p ==> blob[j] != 0
  }

  /** `name` is what `load_gxl_archive` decodes before the marker at `p`. */
  ghost predicate NamedAt(blob: seq<byte>, name: seq<byte>, p: nat)
  {
    p + 4 <= |blob| && exists ns: nat :: WalkStart(blob, ns, p) && name == EntryName(blob, ns, p)
  }

  /** The checks `load_gxl_archive` makes after the marker at `p`: offset and size are the
      little-endian u32s right after it, the size is non-zero and at most 1,000,000 bytes,
      the data is the archive's bytes there, and it starts with the PCX magic byte. */
  ghost predicate MarkedEntry(blob: seq<byte>, e: GxlEntry, p: nat)
  {
    p + 13 <= |blob| && IsAt(blob, PcxMarker, p)
    && e.offset == U32At(blob, p + 5) && e.size == U32At(blob, p + 9)
    && 0 < e.size <= MaxEntrySize && e.offset + e.size <= |blob|
    && e.data == blob[e.offset..e.offset + e.size] && e.data[0] == PcxMagic
  }

  /** What every returned entry satisfies: a name ending in ".PCX", and a ".PCX\0" marker
      after which the entry passed its checks and before which its name was decoded. */
  ghost predicate ValidEntry(blob: seq<byte>, e: GxlEntry)
  {
    EndsWith(e.name, PcxSuffix) && exists p: nat :: MarkedEntry(blob, e, p) && NamedAt(blob, e.name, p)
  }

  lemma EntryStepSound(blob: seq<byte>, pcx: nat, name: seq<byte>)
    requires IsAt(blob, PcxMarker, pcx)
    ensures EntryStep(blob, pcx, name).found.Some? ==>
              EntryStep(blob, pcx, name).found.value.name == name && MarkedEntry(blob, EntryStep(blob, pcx, name).found.value, pcx)
  {
  }

  /** A name start that passes the checks gives a name the walk back decodes. */
  lemma WalkedName(blob: seq<byte>, pos: nat, pcx: nat)
    requires pcx + 4 <= |blob|
    requires pcx - NameStart(blob, pos, pcx, pcx) <= MaxNameBack && NameStart(blob, pos, pcx, pcx) > pos
    ensures NamedAt(blob, EntryName(blob, NameStart(blob, pos, pcx, pcx), pcx), pcx)
  {
    var ns := NameStart(blob, pos, pcx, pcx);
    NameStartSpec(blob, pos, pcx, pcx);
    assert WalkStart(blob, ns, pcx);
  }

  lemma MarkerStepSound(blob: seq<byte>, pos: nat, pcx: nat)
    requires pcx + 5 <= |blob| && IsAt(blob, PcxMarker, pcx)
    ensures MarkerStep(blob, pos, pcx).found.Some? ==> ValidEntry(blob, MarkerStep(blob, pos, pcx).found.value)
  {
    var ns := NameStart(blob, pos, pcx, pcx);
    if !(pcx - ns > MaxNameBack || ns <= pos) {
      var name := EntryName(blob, ns, pcx);
      EntryNameEndsInPcx(blob, ns, pcx);
      WalkedName(blob, pos, pcx);
      EntryStepSound(blob, pcx, name);
      if |name| >= 4 {
        assert MarkerStep(blob, pos, pcx) == EntryStep(blob, pcx, name);
        var st := EntryStep(blob, pcx, name);
        if st.found.Some? {
          assert MarkedEntry(blob, st.found.value, pcx) && NamedAt(blob, st.found.value.name, pcx);
        }
      }
    }
  }

  lemma StepSound(blob: seq<byte>, pos: nat)
    ensures StepAt(blob, pos).found.Some? ==> ValidEntry(blob, StepAt(blob, pos).found.value)
  {
    var found := FindIn(blob, PcxMarker, pos, pos + 100);
    if found.Some? {
      MarkerStepSound(blob, pos, found.value);
    }
  }

  /** Every entry the scan returns is valid. */
  lemma {:induction false} ScanSound(blob: seq<byte>, pos: nat)
    ensures forall k :: 0 <= k < |ScanFrom(blob, pos)| ==> ValidEntry(blob, ScanFrom(blob, pos)[k])
    decreases |blob| - pos
  {
    if pos < |blob| - 30 {
      var st := StepAt(blob, pos);
      StepSound(blob, pos);
      if st.next.Some? {
        ScanSound(blob, st.next.value);
      }
    }
  }

  /** Every entry `load_gxl_archive` returns is valid. */
  lemma LoadGxlSound(blob: seq<byte>)
    ensures forall k :: 0 <= k < |LoadGxl(blob)| ==> ValidEntry(blob, LoadGxl(blob)[k])
  {
    ScanSound(blob, DirectoryStart);
  }

  /** Past position 10000, a miss ends the scan. */
  lemma MissPastLimitStops(blob: seq<byte>, pos: nat)
    requires pos >= DirectoryLimit && FindIn(blob, PcxMarker, pos, pos + 100).None?
    ensures ScanFrom(blob, pos) == []
  {
  }

  /** One unfolding of the scan at a cursor before the end. */
  lemma ScanStep(blob: seq<byte>, pos: nat, found: Option<GxlEntry>, next: Option<nat>)
    requires pos < |blob| - 30 && Step(found, next) == StepAt(blob, pos)
    ensures ScanFrom(blob, pos) == (if found.Some? then [found.value] else [])
                                   + (if next.Some? then ScanFrom(blob, next.value) else [])
  {
  }

  /** The loop body of `load_gxl_archive` from `data_pos` on: the entry it appends, if
      any, and the next cursor, or none when the loop breaks. */
  method ReadEntry(blob: seq<byte>, pcx: nat, name: seq<byte>) returns (found: Option<GxlEntry>, next: Option<nat>)
    ensures Step(found, next) == EntryStep(blob, pcx, name)
  {
    var dataPos := pcx + 5;
    if dataPos + 8 > |blob| {
      return None, None;
    }
    var offset := U32At(blob, dataPos);
    var size := U32At(blob, dataPos + 4);
    if size == 0 || size > MaxEntrySize || offset > |blob| || offset + size > |blob| {
      return None, Some(pcx + 5);
    }
    var data := blob[offset..offset + size];
    found := None;
    if |data| > 0 && data[0] == PcxMagic {
      found := Some(GxlEntry(name, offset, size, data));
    }
    next := Some(dataPos + 8);
  }

  /** The loop body of `load_gxl_archive` once a marker is found at `pcx`. */
  method AtMarker(blob: seq<byte>, pos: nat, pcx: nat) returns (found: Option<GxlEntry>, next: Option<nat>)
    requires pcx + 5 <= |blob|
    ensures Step(found, next) == MarkerStep(blob, pos, pcx)
  {
    var nameStart := FindNameStart(blob, pos, pcx);
    if pcx - nameStart > MaxNameBack || nameStart <= pos {
      return None, Some(pcx + 5);
    }
    var name := Strip(AsciiOnly(blob[nameStart..pcx + 4]));
    assert name == EntryName(blob, nameStart, pcx);
    if name == [] || |name| < 4 {
      return None, Some(pcx + 5);
    }
    found, next := ReadEntry(blob, pcx, name);
  }

  /** One pass of the loop body of `load_gxl_archive` at cursor `pos`: the entry it
      appends, if any, and the next cursor, or none when the loop breaks. */
  method ScanOnce(blob: seq<byte>, pos: nat) returns (found: Option<GxlEntry>, next: Option<nat>)
    ensures Step(found, next) == StepAt(blob, pos)
  {
    var pcxPos := FindIn(blob, PcxMarker, pos, pos + 100);
    if pcxPos.None? {
      if pos + 1 > DirectoryLimit {
        return None, None;
      }
      return None, Some(pos + 1);
    }
    found, next := AtMarker(blob, pos, pcxPos.value);
  }

  /** `load_gxl_archive`: the cursor strictly increases on every path through the loop. */
  method LoadGxlArchive(blob: seq<byte>) returns (entries: seq<GxlEntry>)
    ensures entries == LoadGxl(blob)
    ensures forall k :: 0 <= k < |entries| ==> ValidEntry(blob, entries[k])
  {
    LoadGxlSound(blob);
    entries := [];
    var pos := DirectoryStart;
    while pos < |blob| - 30
      invariant LoadGxl(blob) == entries + ScanFrom(blob, pos)
      decreases |blob| - pos
    {
      var found, next := ScanOnce(blob, pos);
      ScanStep(blob, pos, found, next);
      ghost var rest := if next.Some? then ScanFrom(blob, next.value) else [];
      if found.Some? {
        AppendAssoc3(entries, [found.value], rest);
        entries := entries + [found.value];
      } else {
        assert [] + rest == rest;
      }
      assert LoadGxl(blob) == entries + rest;
      if next.None? {
        assert entries + rest == entries;
        break;
      }
      pos := next.value;
    }
  }
}
