/** The scenario block codec of editor/data.py: a fixed-size block holding the forces,
    objectives and notes texts, a run of NUL-terminated metadata strings and an opaque
    tail, and the count-prefixed file that concatenates such blocks. */
module Scenario {
  import opened Bytes

  /** The block size observed in SCENARIO.DAT. */
  const ScenarioBlockSize: nat := 5883

  /** "\nOBJECTIVES\n". */
  const ObjectivesMarker: seq<byte> := [10, 79, 66, 74, 69, 67, 84, 73, 86, 69, 83, 10]
  /** "\nOBJECTIVES \n": a variant with a space before the newline, accepted on parse only. */
  const ObjectivesVariantMarker: seq<byte> := [10, 79, 66, 74, 69, 67, 84, 73, 86, 69, 83, 32, 10]
  /** "\nSPECIAL NOTES\n". */
  const NotesMarker: seq<byte> := [10, 83, 80, 69, 67, 73, 65, 76, 32, 78, 79, 84, 69, 83, 10]

  /** The bytes `decode` strips from the end of every text section. */
  const TextStrip: set<byte> := {0, 0xF0, 0xFF}

  /** The ValueError messages of `to_bytes`. */
  const RawSizeMismatch: string := "Raw scenario block size mismatch"
  const BlockOverflow: string := "Scenario block overflow"

  /** `decode` inside `parse_scenario_block`: latin-1 is one byte per character, so the
      text is the raw bytes with trailing 0x00/0xF0/0xFF removed. */
  function Decode(raw: seq<byte>): seq<byte>
  {
    RStrip(raw, TextStrip)
  }

  /** Raw text that `Decode` leaves untouched: empty or not ending in a stripped byte. */
  predicate Unstripped(raw: seq<byte>)
  {
    raw == [] || raw[|raw| - 1] !in TextStrip
  }

  // ---------------------------------------------------------------------------
  // Metadata entries

  /** `MetadataEntry`: a string and the count of extra NULs after its terminator. */
  datatype MetadataEntry = MetadataEntry(text: seq<byte>, extraZeroCount: nat)

  /** `MetadataEntry.to_bytes`: the text, its NUL terminator and the extra NULs. */
  function EntryBytes(e: MetadataEntry): (r: seq<byte>)
    ensures |r| == |e.text| + 1 + e.extraZeroCount
    ensures r[..|e.text|] == e.text && forall i :: |e.text| <= i < |r| ==> r[i] == 0
  {
    e.text + [0] + Zeros(e.extraZeroCount)
  }

  function EntriesBytes(es: seq<MetadataEntry>): seq<byte>
  {
    if es == [] then [] else EntryBytes(es[0]) + EntriesBytes(es[1..])
  }

  lemma {:induction false} EntriesBytesSnoc(es: seq<MetadataEntry>, e: MetadataEntry)
    ensures EntriesBytes(es + [e]) == EntriesBytes(es) + EntryBytes(e)
  {
    if es != [] {
      EntriesBytesSnoc(es[1..], e);
      assert (es + [e])[1..] == es[1..] + [e];
    }
  }

  function Texts(es: seq<MetadataEntry>): (r: seq<seq<byte>>)
    ensures |r| == |es| && forall i :: 0 <= i < |es| ==> r[i] == es[i].text
  {
    seq(|es|, i requires 0 <= i < |es| => es[i].text)
  }

  /** `set_metadata_strings` on values: fresh entries with no extra NULs when the count
      changes, otherwise each entry keeps its NUL count and takes the new text. */
  function RetextEntries(es: seq<MetadataEntry>, strings: seq<seq<byte>>): seq<MetadataEntry>
  {
    if |strings| != |es| then seq(|strings|, i requires 0 <= i < |strings| => MetadataEntry(strings[i], 0))
    else seq(|es|, i requires 0 <= i < |es| => MetadataEntry(strings[i], es[i].extraZeroCount))
  }

  /** After `set_metadata_strings`, `metadata_strings()` returns exactly the new strings;
      the NUL counts survive when the count is unchanged and are zero otherwise. */
  lemma RetextEntriesTexts(es: seq<MetadataEntry>, strings: seq<seq<byte>>)
    ensures Texts(RetextEntries(es, strings)) == strings
    ensures |strings| == |es| ==>
              forall i :: 0 <= i < |es| ==> RetextEntries(es, strings)[i].extraZeroCount == es[i].extraZeroCount
    ensures |strings| != |es| ==>
              forall i :: 0 <= i < |strings| ==> RetextEntries(es, strings)[i].extraZeroCount == 0
  {
  }

  // ---------------------------------------------------------------------------
  // The record as a value and its encoding

  /** The state of a `ScenarioRecord` (the regex-derived `scenario_key` and
      `difficulty_token` are not part of this model). */
  datatype ScenarioData = ScenarioData(
    index: int,
    forces: seq<byte>,
    objectives: seq<byte>,
    notes: seq<byte>,
    entries: seq<MetadataEntry>,
    leadingZeros: nat,
    trailing: seq<byte>,
    hasNotesMarker: bool,
    blockSize: nat,
    rawBlock: Option<seq<byte>>)

  /** The notes part of `to_bytes`: the marker and notes, or without the marker the notes
      alone (appended only when non-empty, which is the same as appending them always). */
  function NotesPart(d: ScenarioData): seq<byte>
  {
    if d.hasNotesMarker then NotesMarker + d.notes else d.notes
  }

  /** The metadata part of `to_bytes`: leading NULs, the entries and the trailing bytes. */
  function MetadataBytes(d: ScenarioData): seq<byte>
  {
    Zeros(d.leadingZeros) + EntriesBytes(d.entries) + d.trailing
  }

  /** What `to_bytes` writes after the OBJECTIVES marker. */
  function Body(d: ScenarioData): seq<byte>
  {
    d.objectives + NotesPart(d) + [0] + MetadataBytes(d)
  }

  /** The joined parts of `to_bytes` before padding. */
  function Parts(d: ScenarioData): seq<byte>
  {
    d.forces + ObjectivesMarker + Body(d)
  }

  /** `ScenarioRecord.to_bytes` as a function of the record's state. */
  function Encode(d: ScenarioData): Result<seq<byte>>
  {
    match d.rawBlock
    case Some(raw) =>
      if |raw| != d.blockSize then Err(RawSizeMismatch) else Ok(raw)
    case None =>
      var p := Parts(d);
      if |p| > d.blockSize then Err(BlockOverflow)
      else Ok(p + Zeros(d.blockSize - |p|))
  }

  /** The encoding always has exactly `block_size` bytes: the raw block verbatim (an error
      when its size differs), or the parts followed by zero padding (an error when the
      parts do not fit). */
  lemma EncodeShape(d: ScenarioData)
    ensures Encode(d).Ok? ==> |Encode(d).value| == d.blockSize
    ensures d.rawBlock.Some? ==>
              (Encode(d).Ok? <==> |d.rawBlock.value| == d.blockSize)
              && (Encode(d).Ok? ==> Encode(d).value == d.rawBlock.value)
    ensures d.rawBlock.None? ==>
              (Encode(d).Ok? <==> |Parts(d)| <= d.blockSize)
              && (Encode(d).Ok? ==>
                    Encode(d).value[..|Parts(d)|] == Parts(d)
                    && forall i :: |Parts(d)| <= i < d.blockSize ==> Encode(d).value[i] == 0)
  {
  }

  /** `ScenarioRecord`, whose fields the editor updates in place. */
  class ScenarioRecord {
    var index: int
    var forces: seq<byte>
    var objectives: seq<byte>
    var notes: seq<byte>
    var metadataEntries: seq<MetadataEntry>
    var metadataLeadingZeros: nat
    var trailingBytes: seq<byte>
    var hasSpecialNotesMarker: bool
    var blockSize: nat
    var rawBlock: Option<seq<byte>>

    /** The record's state as a value. */
    function Value(): ScenarioData
      reads this
    {
      ScenarioData(index, forces, objectives, notes, metadataEntries, metadataLeadingZeros,
                   trailingBytes, hasSpecialNotesMarker, blockSize, rawBlock)
    }

    constructor (d: ScenarioData)
      ensures Value() == d
    {
      index := d.index;
      forces := d.forces;
      objectives := d.objectives;
      notes := d.notes;
      metadataEntries := d.entries;
      metadataLeadingZeros := d.leadingZeros;
      trailingBytes := d.trailing;
      hasSpecialNotesMarker := d.hasNotesMarker;
      blockSize := d.blockSize;
      rawBlock := d.rawBlock;
    }

    /** `to_bytes`: collect the parts, join them, refuse an overflow and pad with NULs. */
    method ToBytes() returns (r: Result<seq<byte>>)
      ensures r == Encode(Value())
    {
      if rawBlock.Some? {
        if |rawBlock.value| != blockSize {
          return Err(RawSizeMismatch);
        }
        return Ok(rawBlock.value);
      }
      var notesPart := notes;
      if hasSpecialNotesMarker {
        notesPart := NotesMarker + notes;
      }
      var meta := Zeros(metadataLeadingZeros);
      for i := 0 to |metadataEntries|
        invariant meta == Zeros(metadataLeadingZeros) + EntriesBytes(metadataEntries[..i])
      {
        EntriesBytesSnoc(metadataEntries[..i], metadataEntries[i]);
        assert metadataEntries[..i + 1] == metadataEntries[..i] + [metadataEntries[i]];
        meta := meta + EntryBytes(metadataEntries[i]);
      }
      assert metadataEntries[..|metadataEntries|] == metadataEntries;
      meta := meta + trailingBytes;
      var block := forces + ObjectivesMarker + (objectives + notesPart + [0] + meta);
      assert block == Parts(Value());
      if |block| > blockSize {
        return Err(BlockOverflow);
      }
      if |block| < blockSize {
        block := block + Zeros(blockSize - |block|);
      } else {
        assert block + Zeros(blockSize - |block|) == block;
      }
      return Ok(block);
    }

    function MetadataStrings(): (r: seq<seq<byte>>)
      reads this
      ensures |r| == |metadataEntries|
    {
      Texts(metadataEntries)
    }

    /** `set_metadata_strings`: replace the entries when the count changes, otherwise
      update each entry's text in turn. */
    method SetMetadataStrings(strings: seq<seq<byte>>)
      modifies this
      ensures metadataEntries == RetextEntries(old(metadataEntries), strings)
      ensures Value() == old(Value()).(entries := metadataEntries)
    {
      if |strings| != |metadataEntries| {
        metadataEntries := seq(|strings|, i requires 0 <= i < |strings| => MetadataEntry(strings[i], 0));
      } else {
        ghost var before := metadataEntries;
        for i := 0 to |strings|
          invariant |metadataEntries| == |before|
          invariant forall j :: 0 <= j < i ==> metadataEntries[j] == MetadataEntry(strings[j], before[j].extraZeroCount)
          invariant forall j :: i <= j < |before| ==> metadataEntries[j] == before[j]
          invariant Value() == old(Value()).(entries := metadataEntries)
        {
          metadataEntries := metadataEntries[i := metadataEntries[i].(text := strings[i])];
        }
        assert metadataEntries == RetextEntries(before, strings);
      }
    }
  }

  // ---------------------------------------------------------------------------
  // Parsing

  /** `block.split(marker, 1)` when the marker occurs. */
  function SplitOnce(s: seq<byte>, marker: seq<byte>): (r: Option<(seq<byte>, seq<byte>)>)
    requires |marker| > 0
    ensures r.None? <==> Find(s, marker, 0).None?
    ensures r.Some? ==> s == r.value.0 + marker + r.value.1
    ensures r.Some? ==> forall j: nat :: j < |r.value.0| ==> !IsAt(s, marker, j)
  {
    match Find(s, marker, 0)
    case None => None
    case Some(i) =>
      assert s == s[..i] + s[i..i + |marker|] + s[i + |marker|..];
      Some((s[..i], s[i + |marker|..]))
  }

  /** The raw sections of a block that has an OBJECTIVES marker. `terminated` says whether
      the text part ended at a NUL (otherwise `rest` is empty). */
  datatype RawSections = RawSections(
    forcesRaw: seq<byte>,
    variantMarker: bool,
    objectivesRaw: seq<byte>,
    hasNotesMarker: bool,
    notesRaw: seq<byte>,
    terminated: bool,
    rest: seq<byte>)

  /** The terminating NUL, when there is one. */
  function Nul(terminated: bool): seq<byte>
  {
    if terminated then [0] else []
  }

  /** The text part up to its first NUL, and what follows that NUL. */
  function SplitAtNul(s: seq<byte>): (r: (seq<byte>, bool, seq<byte>))
    ensures 0 !in r.0
    ensures s == r.0 + Nul(r.1) + r.2
    ensures !r.1 ==> r.2 == []
  {
    match IndexOf(s, 0, 0)
    case None => (s, false, [])
    case Some(e) =>
      assert s == s[..e] + [0] + s[e + 1..];
      (s[..e], true, s[e + 1..])
  }

  /** Everything after the OBJECTIVES marker. */
  function Remainder(s: RawSections): seq<byte>
  {
    s.objectivesRaw + NotesTail(s) + Nul(s.terminated) + s.rest
  }

  /** The notes marker and notes, when the marker was present. */
  function NotesTail(s: RawSections): seq<byte>
  {
    if s.hasNotesMarker then NotesMarker + s.notesRaw else []
  }

  /** The sections after the OBJECTIVES marker: objectives, then the notes up to a NUL when
      the SPECIAL NOTES marker occurs, otherwise the objectives run up to the NUL. */
  function SplitRemainder(forcesRaw: seq<byte>, variantMarker: bool, remainder: seq<byte>): (r: RawSections)
    ensures r.forcesRaw == forcesRaw && r.variantMarker == variantMarker
    ensures remainder == Remainder(r)
    ensures !r.terminated ==> r.rest == []
    ensures !r.hasNotesMarker ==> r.notesRaw == []
  {
    match SplitOnce(remainder, NotesMarker)
    case Some(parts) =>
      var notes := SplitAtNul(parts.1);
      var r := RawSections(forcesRaw, variantMarker, parts.0, true, notes.0, notes.1, notes.2);
      assert NotesTail(r) == NotesMarker + notes.0;
      AppendAssoc5(parts.0, NotesMarker, notes.0, Nul(notes.1), notes.2);
      r
    case None =>
      var objectives := SplitAtNul(remainder);
      RawSections(forcesRaw, variantMarker, objectives.0, false, [], objectives.1, objectives.2)
  }

  lemma AppendAssoc5(a: seq<byte>, b: seq<byte>, c: seq<byte>, d: seq<byte>, e: seq<byte>)
    ensures a + b + (c + d + e) == a + (b + c) + d + e
  {
  }

  /** The splitting steps of `parse_scenario_block`; None when neither OBJECTIVES marker
      occurs. */
  function SplitBlock(block: seq<byte>): (r: Option<RawSections>)
    ensures r.Some? ==> block == r.value.forcesRaw + MarkerOf(r.value) + Remainder(r.value)
  {
    var standard := SplitOnce(block, ObjectivesMarker);
    var variant := SplitOnce(block, ObjectivesVariantMarker);
    if standard.None? && variant.None? then None
    else
      var parts := if standard.Some? then standard.value else variant.value;
      var r := SplitRemainder(parts.0, standard.None?, parts.1);
      assert block == parts.0 + MarkerOf(r) + parts.1;
      Some(r)
  }

  function MarkerOf(s: RawSections): seq<byte>
  {
    if s.variantMarker then ObjectivesVariantMarker else ObjectivesMarker
  }

  /** The split fails exactly when neither marker occurs, and the variant is used only
      when the standard marker is absent. The sections partition the block (the ensures
      of `SplitBlock` and `SplitRemainder`). */
  lemma SplitBlockMarkers(block: seq<byte>)
    ensures SplitBlock(block).None? <==>
              !Contains(block, ObjectivesMarker) && !Contains(block, ObjectivesVariantMarker)
    ensures SplitBlock(block).Some? ==>
              (SplitBlock(block).value.variantMarker <==> !Contains(block, ObjectivesMarker))
  {
    FindNoneIffAbsent(block, ObjectivesMarker);
    FindNoneIffAbsent(block, ObjectivesVariantMarker);
  }

  /** Advance past a run of NULs. */
  function SkipZeros(s: seq<byte>, i: nat): (r: nat)
    requires i <= |s|
    ensures i <= r <= |s| && (r == |s| || s[r] != 0)
    decreases |s| - i
  {
    if i == |s| || s[i] != 0 then i else SkipZeros(s, i + 1)
  }

  /** The bytes skipped are NULs. */
  lemma {:induction false} SkipZerosSkipsZeros(s: seq<byte>, i: nat)
    requires i <= |s|
    ensures s[i..SkipZeros(s, i)] == Zeros(SkipZeros(s, i) - i)
    decreases |s| - i
  {
    if i < |s| && s[i] == 0 {
      SkipZerosSkipsZeros(s, i + 1);
      assert s[i..SkipZeros(s, i)] == [0] + s[i + 1..SkipZeros(s, i)];
    }
  }

  /** The metadata loop: from `cursor`, while the byte there is printable, read a
      NUL-terminated string and count the NULs after it. Returns the entries and the
      cursor where the loop stopped. */
  function ParseEntries(rest: seq<byte>, cursor: nat): (r: (seq<MetadataEntry>, nat))
    requires cursor <= |rest|
    ensures cursor <= r.1 <= |rest|
    decreases |rest| - cursor
  {
    if cursor == |rest| || rest[cursor] < 0x20 then ([], cursor)
    else
      var step := ReadEntry(rest, cursor);
      var more := ParseEntries(rest, step.1);
      ([step.0] + more.0, more.1)
  }

  /** One turn of the metadata loop: the string up to the next NUL and the number of
      further NULs after it, with the cursor past those NULs. */
  function ReadEntry(rest: seq<byte>, cursor: nat): (r: (MetadataEntry, nat))
    requires cursor < |rest|
    ensures cursor < r.1 <= |rest|
  {
    var read := ReadCString(rest, cursor);
    var next := SkipZeros(rest, read.1);
    (MetadataEntry(read.0, next - read.1), next)
  }

  /** The metadata part of a remainder: leading NULs, entries and the trailing bytes. */
  function ParseMetadata(rest: seq<byte>): (nat, seq<MetadataEntry>, seq<byte>)
  {
    var lz := SkipZeros(rest, 0);
    var entries := ParseEntries(rest, lz);
    (lz, entries.0, rest[entries.1..])
  }

  /** `parse_scenario_block` as a function of the block. */
  function ParseBlock(block: seq<byte>, index: int): ScenarioData
  {
    match SplitBlock(block)
    case None =>
      ScenarioData(index, Decode(block), [], [], [], 0, [], false, |block|, Some(block))
    case Some(s) =>
      var m := ParseMetadata(s.rest);
      ScenarioData(index, Decode(s.forcesRaw), Decode(s.objectivesRaw), Decode(s.notesRaw),
                   m.1, m.0, m.2, s.hasNotesMarker, |block|, None)
  }

  /** Every metadata entry is a non-empty string without NULs that starts with a printable
      byte, and the loop stops at the end or at a control byte in 0x01..0x1F. */
  lemma {:induction false} ParseEntriesWellFormed(rest: seq<byte>, cursor: nat)
    requires cursor <= |rest| && (cursor == |rest| || rest[cursor] != 0)
    ensures var (es, end) := ParseEntries(rest, cursor);
            (forall k :: 0 <= k < |es| ==>
               |es[k].text| > 0 && 0 !in es[k].text && es[k].text[0] >= 0x20)
            && (end == |rest| || 0 < rest[end] < 0x20)
    decreases |rest| - cursor
  {
    if !(cursor == |rest| || rest[cursor] < 0x20) {
      var (segment, afterNul) := ReadCString(rest, cursor);
      var next := SkipZeros(rest, afterNul);
      ParseEntriesWellFormed(rest, next);
      ReadCStringSplit(rest, cursor);
      assert IndexOf(rest, 0, cursor) != Some(cursor);
      assert segment[0] == rest[cursor];
    }
  }

  /** The last entry ran to the end of the data without a NUL terminator. */
  predicate Unterminated(rest: seq<byte>, es: seq<MetadataEntry>, end: nat)
  {
    es != [] && end == |rest| > 0 && rest[|rest| - 1] != 0
  }

  /** The first entry read at `cursor`: either it was NUL-terminated and its bytes are
      exactly the data up to the next non-NUL byte (which follows a NUL), or it ran to the
      end and its bytes are the rest of the data plus a NUL. */
  lemma FirstEntryBytes(rest: seq<byte>, cursor: nat)
    requires cursor < |rest| && rest[cursor] >= 0x20
    ensures var (es, end) := ParseEntries(rest, cursor);
            var next := ReadEntry(rest, cursor).1;
            es != [] && es[0] == ReadEntry(rest, cursor).0
            && es[1..] == ParseEntries(rest, next).0 && end == ParseEntries(rest, next).1
            && (IndexOf(rest, 0, cursor).Some? ==>
                  cursor < next && rest[cursor..next] == EntryBytes(es[0]) && rest[next - 1] == 0)
            && (IndexOf(rest, 0, cursor).None? ==>
                  next == |rest| && EntryBytes(es[0]) == rest[cursor..] + [0] && rest[|rest| - 1] != 0)
  {
    ParseEntriesStep(rest, cursor);
    if IndexOf(rest, 0, cursor).Some? {
      TerminatedEntryBytes(rest, cursor);
    } else {
      UnterminatedEntryBytes(rest, cursor);
    }
  }

  /** An entry read up to a NUL: its bytes are the data up to the cursor past its NULs. */
  lemma TerminatedEntryBytes(rest: seq<byte>, cursor: nat)
    requires cursor < |rest| && IndexOf(rest, 0, cursor).Some?
    ensures var (e, next) := ReadEntry(rest, cursor);
            cursor < next && rest[cursor..next] == EntryBytes(e) && rest[next - 1] == 0
  {
    var segment := ReadCString(rest, cursor).0;
    var afterNul := ReadCString(rest, cursor).1;
    var next := SkipZeros(rest, afterNul);
    ReadCStringSplit(rest, cursor);
    SkipZerosSkipsZeros(rest, afterNul);
    SliceJoin(rest, cursor, afterNul, next);
  }

  /** An entry read to the end of the data: its bytes are the rest of the data and a NUL. */
  lemma UnterminatedEntryBytes(rest: seq<byte>, cursor: nat)
    requires cursor < |rest| && IndexOf(rest, 0, cursor).None?
    ensures var (e, next) := ReadEntry(rest, cursor);
            next == |rest| && EntryBytes(e) == rest[cursor..] + [0] && rest[|rest| - 1] != 0
  {
    ReadCStringSplit(rest, cursor);
  }

  /** The entries' bytes and the trailing bytes give back the data from `cursor` on, except
      that an unterminated last entry gains a NUL. */
  predicate Reassembles(rest: seq<byte>, cursor: nat)
    requires cursor <= |rest|
  {
    var pe := ParseEntries(rest, cursor);
    if Unterminated(rest, pe.0, pe.1) then EntriesBytes(pe.0) == rest[cursor..] + [0]
    else EntriesBytes(pe.0) + rest[pe.1..] == rest[cursor..]
  }

  lemma {:induction false} ParseEntriesReassembly(rest: seq<byte>, cursor: nat)
    requires cursor <= |rest|
    ensures Reassembles(rest, cursor)
    decreases |rest| - cursor
  {
    if !(cursor == |rest| || rest[cursor] < 0x20) {
      ParseEntriesReassembly(rest, ReadEntry(rest, cursor).1);
      if IndexOf(rest, 0, cursor).Some? {
        TerminatedEntryReassembles(rest, cursor);
      } else {
        UnterminatedEntryReassembles(rest, cursor);
      }
    }
  }

  /** A NUL-terminated entry at `cursor` puts its own bytes in front of what the entries
      after it reassemble. */
  lemma TerminatedEntryReassembles(rest: seq<byte>, cursor: nat)
    requires cursor < |rest| && rest[cursor] >= 0x20 && IndexOf(rest, 0, cursor).Some?
    requires Reassembles(rest, ReadEntry(rest, cursor).1)
    ensures Reassembles(rest, cursor)
  {
    var pe := ParseEntries(rest, cursor);
    var next := ReadEntry(rest, cursor).1;
    var more := ParseEntries(rest, next).0;
    TerminatedEntryFacts(rest, cursor);
    if Unterminated(rest, more, pe.1) {
      AppendAssoc3(EntryBytes(pe.0[0]), rest[next..], [0]);
    } else {
      AppendAssoc3(EntryBytes(pe.0[0]), EntriesBytes(more), rest[pe.1..]);
    }
  }

  /** The facts `TerminatedEntryReassembles` chains: the entries split into the first and
      the rest, the data splits at the cursor after the first entry, and whether the last
      entry is unterminated is decided by the entries after the first. */
  lemma TerminatedEntryFacts(rest: seq<byte>, cursor: nat)
    requires cursor < |rest| && rest[cursor] >= 0x20 && IndexOf(rest, 0, cursor).Some?
    ensures var pe := ParseEntries(rest, cursor);
            var next := ReadEntry(rest, cursor).1;
            var more := ParseEntries(rest, next).0;
            cursor < next <= |rest| && pe.0 != [] && pe.1 == ParseEntries(rest, next).1
            && EntriesBytes(pe.0) == EntryBytes(pe.0[0]) + EntriesBytes(more)
            && rest[cursor..] == EntryBytes(pe.0[0]) + rest[next..]
            && (Unterminated(rest, pe.0, pe.1) <==> Unterminated(rest, more, pe.1))
  {
    var pe := ParseEntries(rest, cursor);
    var next := ReadEntry(rest, cursor).1;
    FirstEntryBytes(rest, cursor);
    EntriesBytesCons(pe.0);
    SliceSplit(rest, cursor, next);
  }

  /** An entry without a NUL after it is the last one and gains a NUL. */
  lemma UnterminatedEntryReassembles(rest: seq<byte>, cursor: nat)
    requires cursor < |rest| && rest[cursor] >= 0x20 && IndexOf(rest, 0, cursor).None?
    requires Reassembles(rest, ReadEntry(rest, cursor).1)
    ensures Reassembles(rest, cursor)
  {
    var pe := ParseEntries(rest, cursor);
    var es, end := pe.0, pe.1;
    FirstEntryBytes(rest, cursor);
    EntriesBytesCons(es);
    assert es[1..] == [] && end == |rest|;
    assert Unterminated(rest, es, end);
  }

  /** The bytes of a non-empty list of entries: the first entry's, then the rest's. */
  lemma EntriesBytesCons(es: seq<MetadataEntry>)
    requires es != []
    ensures EntriesBytes(es) == EntryBytes(es[0]) + EntriesBytes(es[1..])
  {
    assert es == [es[0]] + es[1..];
  }

  /** The metadata of a remainder reassembles: leading NULs, the entries' bytes and the
      trailing bytes reproduce it unless the last entry was unterminated, in which case
      the trailing bytes are empty and the entries gain one NUL. */
  lemma ParseMetadataReassembly(rest: seq<byte>)
    ensures var m := ParseMetadata(rest);
            if Unterminated(rest, m.1, |rest| - |m.2|)
            then m.2 == [] && Zeros(m.0) + EntriesBytes(m.1) == rest + [0]
            else Zeros(m.0) + EntriesBytes(m.1) + m.2 == rest
  {
    var lz := SkipZeros(rest, 0);
    var pe := ParseEntries(rest, lz);
    MetadataParts(rest);
    ParseEntriesReassembly(rest, lz);
    LeadingZeros(rest);
    if Unterminated(rest, pe.0, pe.1) {
      AppendAssoc3(Zeros(lz), rest[lz..], [0]);
    } else {
      AppendAssoc3(Zeros(lz), EntriesBytes(pe.0), rest[pe.1..]);
    }
  }

  /** The three parts of `ParseMetadata` and where the trailing bytes start. */
  lemma MetadataParts(rest: seq<byte>)
    ensures var m := ParseMetadata(rest);
            var pe := ParseEntries(rest, SkipZeros(rest, 0));
            m.0 == SkipZeros(rest, 0) && m.1 == pe.0 && m.2 == rest[pe.1..] && |rest| - |m.2| == pe.1
  {
  }

  /** The NULs skipped at the start and what follows them make up the data. */
  lemma LeadingZeros(rest: seq<byte>)
    ensures rest == Zeros(SkipZeros(rest, 0)) + rest[SkipZeros(rest, 0)..]
  {
    var lz := SkipZeros(rest, 0);
    SkipZerosSkipsZeros(rest, 0);
    assert rest[..lz] == rest[0..lz];
    assert rest == rest[..lz] + rest[lz..];
  }

  /** The metadata entries are non-empty NUL-free strings that start with a printable byte,
      and the trailing bytes are empty or start with a control byte in 0x01..0x1F. */
  lemma ParseMetadataWellFormed(rest: seq<byte>)
    ensures var m := ParseMetadata(rest);
            (forall k :: 0 <= k < |m.1| ==>
               |m.1[k].text| > 0 && 0 !in m.1[k].text && m.1[k].text[0] >= 0x20)
            && (m.2 == [] || 0 < m.2[0] < 0x20)
  {
    ParseEntriesWellFormed(rest, SkipZeros(rest, 0));
  }

  /** A block with neither OBJECTIVES marker is kept whole in `raw_block`, with no
      objectives, notes or trailing bytes, and is re-emitted byte for byte. */
  lemma RawBlockRoundTrip(block: seq<byte>, index: int)
    requires !Contains(block, ObjectivesMarker) && !Contains(block, ObjectivesVariantMarker)
    ensures var d := ParseBlock(block, index);
            d.rawBlock == Some(block) && d.objectives == [] && d.notes == [] && d.trailing == []
            && !d.hasNotesMarker && Encode(d) == Ok(block)
  {
    SplitBlockMarkers(block);
  }

  /** A block with the standard marker whose text sections end at a NUL, are not altered by
      the stripping in `decode`, and whose last metadata string is NUL-terminated, encodes
      back to itself (with or without the SPECIAL NOTES marker). */
  lemma StandardBlockRoundTrip(block: seq<byte>, index: int)
    requires SplitBlock(block).Some?
    requires var s := SplitBlock(block).value;
             !s.variantMarker && s.terminated
             && Unstripped(s.forcesRaw) && Unstripped(s.objectivesRaw) && Unstripped(s.notesRaw)
             && var (lz, es, trailing) := ParseMetadata(s.rest);
                !Unterminated(s.rest, es, |s.rest| - |trailing|)
    ensures Encode(ParseBlock(block, index)) == Ok(block)
  {
    var s := SplitBlock(block).value;
    ParseMetadataReassembly(s.rest);
    var d := ParseBlock(block, index);
    assert d.forces == s.forcesRaw;
    assert d.objectives == s.objectivesRaw;
    assert d.notes == s.notesRaw;
    assert MetadataBytes(d) == s.rest;
    assert NotesPart(d) == NotesTail(s);
    assert Body(d) == Remainder(s);
    assert MarkerOf(s) == ObjectivesMarker;
    assert Parts(d) == block;
    assert d.rawBlock.None? && d.blockSize == |block|;
    assert Parts(d) + Zeros(0) == block;
  }

  /** `m` occurs in `a + m + b` right after `a`. */
  lemma IsAtMiddle(a: seq<byte>, m: seq<byte>, b: seq<byte>)
    ensures IsAt(a + m + b, m, |a|)
  {
    assert (a + m + b)[|a|..|a| + |m|] == m;
  }

  /** Without a raw block, a successful encoding contains the standard OBJECTIVES marker
      right after the forces text. */
  lemma EncodedHasMarker(d: ScenarioData)
    requires d.rawBlock.None? && Encode(d).Ok?
    ensures IsAt(Encode(d).value, ObjectivesMarker, |d.forces|)
  {
    var padding := Zeros(d.blockSize - |Parts(d)|);
    assert Encode(d).value == Parts(d) + padding;
    AppendAssoc3(d.forces + ObjectivesMarker, Body(d), padding);
    IsAtMiddle(d.forces, ObjectivesMarker, Body(d) + padding);
  }

  /** A block that only has the variant marker never encodes back to itself: the encoder
      writes the standard marker, which the block does not contain. */
  lemma VariantMarkerRewritten(block: seq<byte>, index: int)
    requires SplitBlock(block).Some? && SplitBlock(block).value.variantMarker
    ensures Encode(ParseBlock(block, index)) != Ok(block)
  {
    SplitBlockMarkers(block);
    var d := ParseBlock(block, index);
    assert d.rawBlock.None?;
    if Encode(d).Ok? {
      EncodedHasMarker(d);
      assert Contains(Encode(d).value, ObjectivesMarker);
    }
  }

  /** `parse_scenario_block`: split on the markers, then walk the remainder with a cursor.
      A block without an OBJECTIVES marker is kept whole as the raw block. */
  method ParseScenarioBlock(block: seq<byte>, index: int) returns (record: ScenarioRecord)
    ensures fresh(record) && record.Value() == ParseBlock(block, index)
  {
    var sections := SplitSections(block);
    if sections.None? {
      record := new ScenarioRecord(ScenarioData(index, Decode(block), [], [], [], 0, [], false, |block|, Some(block)));
      return;
    }
    var s := sections.value;
    var leadingZeros, entries, trailing := ReadMetadata(s.rest);
    record := new ScenarioRecord(ScenarioData(index, Decode(s.forcesRaw), Decode(s.objectivesRaw), Decode(s.notesRaw),
                                              entries, leadingZeros, trailing, s.hasNotesMarker, |block|, None));
  }

  /** The splitting steps of `parse_scenario_block`: the standard marker, else the variant
      marker, then the sections after it. */
  method SplitSections(block: seq<byte>) returns (r: Option<RawSections>)
    ensures r == SplitBlock(block)
  {
    var split := SplitOnce(block, ObjectivesMarker);
    var variant := false;
    if split.None? {
      split := SplitOnce(block, ObjectivesVariantMarker);
      variant := true;
    }
    if split.None? {
      return None;
    }
    var sections := SplitAfterMarker(split.value.0, variant, split.value.1);
    return Some(sections);
  }

  /** The text after the OBJECTIVES marker: with SPECIAL NOTES, the objectives before it and
      the notes up to the first NUL; otherwise the objectives up to the first NUL. */
  method SplitAfterMarker(forcesRaw: seq<byte>, variant: bool, remainder: seq<byte>) returns (r: RawSections)
    ensures r == SplitRemainder(forcesRaw, variant, remainder)
  {
    var notesSplit := SplitOnce(remainder, NotesMarker);
    if notesSplit.Some? {
      var (text, terminated, rest) := SplitAtNul(notesSplit.value.1);
      r := RawSections(forcesRaw, variant, notesSplit.value.0, true, text, terminated, rest);
    } else {
      var (text, terminated, rest) := SplitAtNul(remainder);
      r := RawSections(forcesRaw, variant, text, false, [], terminated, rest);
    }
  }

  /** One turn of the metadata loop: a printable byte at `cursor` starts an entry. */
  lemma ParseEntriesStep(rest: seq<byte>, cursor: nat)
    requires cursor < |rest| && rest[cursor] >= 0x20
    ensures var step := ReadEntry(rest, cursor);
            ParseEntries(rest, cursor).0 == [step.0] + ParseEntries(rest, step.1).0
            && ParseEntries(rest, cursor).1 == ParseEntries(rest, step.1).1
  {
  }

  /** The NUL-counting loops of `parse_scenario_block`: advance past the NULs from `from`. */
  method CountZeros(s: seq<byte>, from: nat) returns (cursor: nat)
    requires from <= |s|
    ensures cursor == SkipZeros(s, from)
  {
    cursor := from;
    while cursor < |s| && s[cursor] == 0
      invariant from <= cursor <= |s|
      invariant SkipZeros(s, from) == SkipZeros(s, cursor)
    {
      cursor := cursor + 1;
    }
  }

  /** The metadata loop of `parse_scenario_block` over the remainder after the sections. */
  method ReadMetadata(remainder: seq<byte>) returns (leadingZeros: nat, entries: seq<MetadataEntry>, trailing: seq<byte>)
    ensures (leadingZeros, entries, trailing) == ParseMetadata(remainder)
  {
    leadingZeros := CountZeros(remainder, 0);
    var cursor := leadingZeros;
    entries := [];
    ghost var whole := ParseEntries(remainder, cursor);
    AppendNil(whole.0);
    while cursor < |remainder| && remainder[cursor] >= 0x20
      invariant cursor <= |remainder|
      invariant whole == (entries + ParseEntries(remainder, cursor).0, ParseEntries(remainder, cursor).1)
      decreases |remainder| - cursor
    {
      var entry, next := ReadEntryAt(remainder, cursor);
      ParseEntriesStep(remainder, cursor);
      AppendAssoc3(entries, [entry], ParseEntries(remainder, next).0);
      entries := entries + [entry];
      cursor := next;
    }
    AppendNil(entries);
    trailing := remainder[cursor..];
  }

  /** The body of the metadata loop: read the string at `cursor`, then count the NULs after
      its terminator. */
  method ReadEntryAt(remainder: seq<byte>, cursor: nat) returns (entry: MetadataEntry, next: nat)
    requires cursor < |remainder|
    ensures (entry, next) == ReadEntry(remainder, cursor)
  {
    var read := ReadCString(remainder, cursor);
    next := CountZeros(remainder, read.1);
    entry := MetadataEntry(read.0, next - read.1);
  }

  // ---------------------------------------------------------------------------
  // A blank scenario

  /** `create_blank_scenario`: template texts, one metadata entry "Scenario <index+1>" and
      56 trailing NULs. */
  function BlankScenario(index: nat): ScenarioData
  {
    ScenarioData(
      index,
      Latin1("FORCES\nGreen Player:\nRed Player:"),
      Latin1("OBJECTIVES\nGreen Player:\nRed Player:"),
      [],
      [MetadataEntry(Latin1("Scenario " + Decimal(index + 1)), 0)],
      0,
      Zeros(56),
      true,
      ScenarioBlockSize,
      None)
  }

  /** A blank scenario for any index a scenario file can hold fits its 5883-byte block. */
  lemma BlankScenarioFits(index: nat)
    requires index < 0x1_0000
    ensures Encode(BlankScenario(index)).Ok?
    ensures |Encode(BlankScenario(index)).value| == ScenarioBlockSize
  {
    DecimalLength(index + 1, 6);
    var d := BlankScenario(index);
    assert |EntriesBytes(d.entries)| == 9 + |Decimal(index + 1)| + 1 by {
      assert d.entries[1..] == [];
    }
  }

  // ---------------------------------------------------------------------------
  // The scenario file

  /** Where block `i` starts, `i * blockLen`, counted up block by block. */
  function Offset(i: nat, blockLen: nat): nat
  {
    if i == 0 then 0 else Offset(i - 1, blockLen) + blockLen
  }

  /** The block offsets are the products the loader computes. */
  lemma {:induction false} OffsetIsProduct(i: nat, blockLen: nat)
    ensures Offset(i, blockLen) == i * blockLen
  {
    if i > 0 {
      OffsetIsProduct(i - 1, blockLen);
      assert (i - 1) * blockLen + blockLen == i * blockLen;
    }
  }

  /** Later blocks start no earlier. */
  lemma {:induction false} OffsetMonotone(i: nat, j: nat, blockLen: nat)
    requires i <= j
    ensures Offset(i, blockLen) <= Offset(j, blockLen)
    decreases j
  {
    if i < j {
      OffsetMonotone(i, j - 1, blockLen);
    }
  }

  /** Block `i` of a payload split into blocks of `blockLen` bytes (Python slicing clips). */
  function BlockAt(payload: seq<byte>, blockLen: nat, i: nat): seq<byte>
  {
    Slice(payload, Offset(i, blockLen), Offset(i, blockLen) + blockLen)
  }

  /** The first `n` blocks of the payload. */
  function Blocks(payload: seq<byte>, blockLen: nat, n: nat): (r: seq<seq<byte>>)
    ensures |r| == n && forall i :: 0 <= i < n ==> r[i] == BlockAt(payload, blockLen, i)
  {
    seq(n, i requires 0 <= i < n => BlockAt(payload, blockLen, i))
  }

  /** Blocks joined in order. */
  function Concat(blocks: seq<seq<byte>>): seq<byte>
  {
    if blocks == [] then [] else Concat(blocks[..|blocks| - 1]) + blocks[|blocks| - 1]
  }

  /** Each block parsed with its index. */
  function ParseAll(blocks: seq<seq<byte>>): (r: seq<ScenarioData>)
    ensures |r| == |blocks|
  {
    seq(|blocks|, i requires 0 <= i < |blocks| => ParseBlock(blocks[i], i))
  }

  /** `ScenarioFile.load` on the file's bytes: a little-endian count (an error when the
      file has fewer than two bytes), then `count` equal blocks of `len(payload) // count`
      bytes, each parsed with its index. */
  function LoadScenarios(data: seq<byte>): Result<seq<ScenarioData>>
  {
    match ReadWord(data, 0)
    case Err(m) => Err(m)
    case Ok((count, offset)) =>
      if count == 0 then Ok([]) else Ok(LoadBlocks(data[offset..], count))
  }

  /** The length of each of `count` equal blocks of a payload of `size` bytes. */
  function BlockLength(size: nat, count: nat): nat
    requires count > 0
  {
    size / count
  }

  /** When `count` divides the payload, its blocks cover it exactly. */
  lemma ExactBlocks(size: nat, count: nat)
    requires count > 0 && size % count == 0
    ensures Offset(count, BlockLength(size, count)) == size
  {
    OffsetIsProduct(count, BlockLength(size, count));
  }

  /** The `count` records of a payload split into equal blocks. */
  function LoadBlocks(payload: seq<byte>, count: nat): seq<ScenarioData>
    requires count > 0
  {
    ParseAll(Blocks(payload, BlockLength(|payload|, count), count))
  }

  /** Each record's `to_bytes` result, in order. */
  function Encodings(records: seq<ScenarioData>): (r: seq<Result<seq<byte>>>)
    ensures |r| == |records|
  {
    if records == [] then [] else Encodings(records[..|records| - 1]) + [Encode(records[|records| - 1])]
  }

  lemma {:induction false} EncodingsAt(records: seq<ScenarioData>, k: nat)
    requires k < |records|
    ensures Encodings(records)[k] == Encode(records[k])
    decreases |records|
  {
    if k < |records| - 1 {
      EncodingsAt(records[..|records| - 1], k);
    }
  }

  /** Blocks joined in order; the first error, if any, is the result. */
  function Join(rs: seq<Result<seq<byte>>>): Result<seq<byte>>
  {
    if rs == [] then Ok([])
    else
      match Join(rs[..|rs| - 1])
      case Err(m) => Err(m)
      case Ok(b) =>
        match rs[|rs| - 1]
        case Err(m) => Err(m)
        case Ok(last) => Ok(b + last)
  }

  /** The records' blocks in order; the first record that fails to encode gives the error. */
  function EncodeAll(records: seq<ScenarioData>): Result<seq<byte>>
  {
    Join(Encodings(records))
  }

  /** Once a prefix fails, the whole sequence fails with the same error. */
  lemma {:induction false} JoinErrPrefix(rs: seq<Result<seq<byte>>>, k: nat)
    requires k <= |rs| && Join(rs[..k]).Err?
    ensures Join(rs) == Join(rs[..k])
    decreases |rs|
  {
    if k < |rs| {
      var shorter := rs[..|rs| - 1];
      assert shorter[..k] == rs[..k];
      JoinErrPrefix(shorter, k);
    } else {
      assert rs[..k] == rs;
    }
  }

  /** One more block: it follows the blocks before it, and its error, if any, is the error
      of the whole sequence. */
  lemma JoinStep(rs: seq<Result<seq<byte>>>, k: nat)
    requires k < |rs| && Join(rs[..k]).Ok?
    ensures rs[k].Ok? ==> Join(rs[..k + 1]) == Ok(Join(rs[..k]).value + rs[k].value)
    ensures rs[k].Err? ==> Join(rs) == Err(rs[k].message)
  {
    PrefixOfPrefix(rs, k);
    if rs[k].Err? {
      JoinErrPrefix(rs, k + 1);
    }
  }

  /** Results that are all blocks join to the blocks concatenated. */
  lemma {:induction false} JoinConcat(rs: seq<Result<seq<byte>>>, blocks: seq<seq<byte>>)
    requires |rs| == |blocks|
    requires forall i :: 0 <= i < |rs| ==> rs[i] == Ok(blocks[i])
    ensures Join(rs) == Ok(Concat(blocks))
    decreases |rs|
  {
    if rs != [] {
      var n := |rs|;
      JoinConcat(rs[..n - 1], blocks[..n - 1]);
    }
  }

  /** Records that each encode to their block encode, together, to the blocks joined. */
  lemma EncodeAllConcat(records: seq<ScenarioData>, blocks: seq<seq<byte>>)
    requires |records| == |blocks|
    requires forall i :: 0 <= i < |records| ==> Encode(records[i]) == Ok(blocks[i])
    ensures EncodeAll(records) == Ok(Concat(blocks))
  {
    forall i | 0 <= i < |records|
      ensures Encodings(records)[i] == Ok(blocks[i])
    {
      EncodingsAt(records, i);
    }
    JoinConcat(Encodings(records), blocks);
  }

  /** `ScenarioFile.save` on bytes: the record count as a little-endian u16 (struct.pack
      raises above 65535) followed by every record's block; the first failing record's
      error is raised. */
  function SaveScenarios(records: seq<ScenarioData>): Result<seq<byte>>
  {
    if |records| >= 0x1_0000 then Err(UShortRange)
    else
      match EncodeAll(records)
      case Err(m) => Err(m)
      case Ok(body) => Ok(WordBytes(|records|) + body)
  }

  /** The first `n` blocks of a payload that holds them are its first `n * blockLen`
      bytes. */
  lemma {:induction false} ConcatBlocks(payload: seq<byte>, blockLen: nat, n: nat)
    requires Offset(n, blockLen) <= |payload|
    ensures Concat(Blocks(payload, blockLen, n)) == payload[..Offset(n, blockLen)]
  {
    if n > 0 {
      OffsetMonotone(n - 1, n, blockLen);
      ConcatBlocks(payload, blockLen, n - 1);
      LastBlock(payload, blockLen, n);
      var bs := Blocks(payload, blockLen, n);
      assert Concat(bs) == Concat(bs[..n - 1]) + bs[n - 1];
    } else {
      assert payload[..0] == [];
    }
  }

  /** The first `n` blocks are the first `n - 1` and the block that ends at offset `n`. */
  lemma LastBlock(payload: seq<byte>, blockLen: nat, n: nat)
    requires 0 < n && Offset(n, blockLen) <= |payload|
    ensures var bs := Blocks(payload, blockLen, n);
            var start := Offset(n - 1, blockLen);
            var end := Offset(n, blockLen);
            bs[..n - 1] == Blocks(payload, blockLen, n - 1) && bs[n - 1] == payload[start..end]
            && payload[..end] == payload[..start] + payload[start..end]
  {
    var bs := Blocks(payload, blockLen, n);
    assert bs[..n - 1] == Blocks(payload, blockLen, n - 1);
    var start := Offset(n - 1, blockLen);
    var end := Offset(n, blockLen);
    assert payload[..end] == payload[..start] + payload[start..end];
  }

  /** Blocks that each encode back to themselves once parsed encode, together, to the
      payload's blocks joined. */
  lemma LoadBlocksEncode(payload: seq<byte>, count: nat)
    requires count > 0
    requires var bl := BlockLength(|payload|, count);
             forall i :: 0 <= i < count ==>
               Encode(ParseBlock(BlockAt(payload, bl, i), i)) == Ok(BlockAt(payload, bl, i))
    ensures EncodeAll(LoadBlocks(payload, count))
            == Ok(Concat(Blocks(payload, BlockLength(|payload|, count), count)))
  {
    var blocks := Blocks(payload, BlockLength(|payload|, count), count);
    EncodeAllConcat(LoadBlocks(payload, count), blocks);
  }

  /** Loading then saving a file gives the same bytes when the payload is an exact multiple
      of the count and every block encodes back to itself. */
  lemma LoadSaveRoundTrip(data: seq<byte>)
    requires |data| >= 2 && WordAt(data, 0) > 0
    requires (|data| - 2) % WordAt(data, 0) == 0
    requires var count := WordAt(data, 0);
             var payload := data[2..];
             var bl := BlockLength(|payload|, count);
             forall i :: 0 <= i < count ==>
               Encode(ParseBlock(BlockAt(payload, bl, i), i)) == Ok(BlockAt(payload, bl, i))
    ensures LoadScenarios(data).Ok? && SaveScenarios(LoadScenarios(data).value) == Ok(data)
  {
    var count := WordAt(data, 0);
    var payload := data[2..];
    LoadScenariosShape(data);
    PayloadBlocks(payload, count);
    LoadBlocksEncode(payload, count);
    CountHeader(data);
  }

  /** A file with a non-zero count loads the payload after the count as that many blocks. */
  lemma LoadScenariosShape(data: seq<byte>)
    requires |data| >= 2 && WordAt(data, 0) > 0
    ensures LoadScenarios(data) == Ok(LoadBlocks(data[2..], WordAt(data, 0)))
    ensures |LoadBlocks(data[2..], WordAt(data, 0))| == WordAt(data, 0)
  {
  }

  /** The count is the file's first two bytes. */
  lemma CountHeader(data: seq<byte>)
    requires |data| >= 2
    ensures data == WordBytes(WordAt(data, 0)) + data[2..]
  {
    WordOfBytes(data[0], data[1]);
    assert WordBytes(WordAt(data, 0)) == data[..2];
  }

  /** A payload that splits evenly is exactly its blocks joined. */
  lemma PayloadBlocks(payload: seq<byte>, count: nat)
    requires count > 0 && |payload| % count == 0
    ensures Concat(Blocks(payload, BlockLength(|payload|, count), count)) == payload
  {
    var bl := BlockLength(|payload|, count);
    ExactBlocks(|payload|, count);
    ConcatBlocks(payload, bl, count);
    PrefixAll(payload);
  }

  /** The states of a sequence of records. */
  function Values(records: seq<ScenarioRecord>): (r: seq<ScenarioData>)
    reads records
    ensures |r| == |records|
  {
    if records == [] then [] else Values(records[..|records| - 1]) + [records[|records| - 1].Value()]
  }

  /** The `k`-th value is the `k`-th record's state. */
  lemma {:induction false} ValuesAt(records: seq<ScenarioRecord>, k: nat)
    requires k < |records|
    ensures Values(records)[k] == records[k].Value()
    decreases |records|
  {
    if k < |records| - 1 {
      ValuesAt(records[..|records| - 1], k);
    }
  }

  /** `ScenarioFile.load`: read the count, then parse each block in turn into a new record. */
  method LoadScenarioFile(data: seq<byte>) returns (r: Result<seq<ScenarioRecord>>)
    ensures r.Ok? <==> LoadScenarios(data).Ok?
    ensures r.Ok? ==> Values(r.value) == LoadScenarios(data).value
    ensures r.Ok? ==> forall i :: 0 <= i < |r.value| ==> fresh(r.value[i])
  {
    var read := ReadWord(data, 0);
    if read.Err? {
      return Err(read.message);
    }
    var (count, offset) := read.value;
    if count <= 0 {
      return Ok([]);
    }
    var payload := data[offset..];
    var records := ParseBlockRecords(payload, count);
    return Ok(records);
  }

  /** The loop of `ScenarioFile.load`: block `idx` is `payload[idx * block_len:][:block_len]`,
      parsed with its index into a new record. The offset `idx * block_len` is kept as a
      running sum (`OffsetIsProduct` shows the two agree). */
  method ParseBlockRecords(payload: seq<byte>, count: nat) returns (records: seq<ScenarioRecord>)
    requires count > 0
    ensures Values(records) == LoadBlocks(payload, count)
    ensures forall i :: 0 <= i < |records| ==> fresh(records[i])
  {
    var blockLen := BlockLength(|payload|, count);
    var start := 0;
    records := [];
    for idx := 0 to count
      invariant start == Offset(idx, blockLen)
      invariant Values(records) == LoadBlocks(payload, count)[..idx]
      invariant forall i :: 0 <= i < |records| ==> fresh(records[i])
    {
      var record := ParseBlockRecord(payload, count, idx, start, records);
      records := records + [record];
      start := start + blockLen;
    }
    PrefixAll(LoadBlocks(payload, count));
  }

  /** One step of that loop: block `idx` is `payload[idx * block_len:][:block_len]`, parsed
      into a new record that follows the `done` ones. */
  method ParseBlockRecord(payload: seq<byte>, count: nat, idx: nat, start: nat,
                          ghost done: seq<ScenarioRecord>)
      returns (record: ScenarioRecord)
    requires idx < count && start == Offset(idx, BlockLength(|payload|, count))
    requires Values(done) == LoadBlocks(payload, count)[..idx]
    ensures fresh(record) && Values(done + [record]) == LoadBlocks(payload, count)[..idx + 1]
  {
    var blockLen := BlockLength(|payload|, count);
    var block := Slice(payload, start, start + blockLen);
    record := ParseScenarioBlock(block, idx);
    LoadBlocksAt(payload, count, idx);
    PrefixSnoc(LoadBlocks(payload, count), idx);
    ValuesSnoc(done, record);
  }

  /** The `idx`-th loaded record is the `idx`-th block parsed with its index. */
  lemma LoadBlocksAt(payload: seq<byte>, count: nat, idx: nat)
    requires idx < count
    ensures |LoadBlocks(payload, count)| == count
    ensures LoadBlocks(payload, count)[idx] == ParseBlock(BlockAt(payload, BlockLength(|payload|, count), idx), idx)
  {
  }

  /** Appending a record appends its state. */
  lemma ValuesSnoc(done: seq<ScenarioRecord>, record: ScenarioRecord)
    ensures Values(done + [record]) == Values(done) + [record.Value()]
  {
    assert (done + [record])[..|done|] == done;
  }

  /** `ScenarioFile.save`: the count, then each record's bytes. */
  method SaveScenarioFile(records: seq<ScenarioRecord>) returns (r: Result<seq<byte>>)
    ensures r == SaveScenarios(Values(records))
  {
    if |records| >= 0x1_0000 {
      return Err(UShortRange);
    }
    ghost var values := Values(records);
    ghost var encodings := Encodings(values);
    var head := WordBytes(|records|);
    var body := [];
    for k := 0 to |records|
      invariant Join(encodings[..k]) == Ok(body)
    {
      var bytes := records[k].ToBytes();
      ValuesAt(records, k);
      EncodingsAt(values, k);
      JoinStep(encodings, k);
      if bytes.Err? {
        return Err(bytes.message);
      }
      body := body + bytes.value;
    }
    PrefixAll(encodings);
    return Ok(head + body);
  }
}
