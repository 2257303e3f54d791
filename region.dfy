/** The 65-byte region records of the map file (editor/data.py): a 33-byte header holding
    the region's name and NUL-separated fields, then sixteen little-endian tail words, of
    which words 5 to 7 place the region on the strategic map. */
module Region {
  import opened Bytes

  const RecordLen: nat := 65
  /** `REGION_RECORD_LEN - 32`: the bytes before the tail. */
  const HeaderLen: nat := 33
  const TailLen: nat := 32

  /** The `struct.error` of unpacking a tail shorter than 32 bytes. */
  const TailTooShort: string := "unpack requires a buffer of 32 bytes"
  /** The ValueError of `to_bytes` when the name and fields do not fit the header. */
  const HeaderOverflow: string := "Region header overflow"

  /** `RegionField`: the field's bytes and whether a NUL followed it. */
  datatype RegionField = RegionField(raw: seq<byte>, hasTrailingNull: bool)

  /** The state of a `MapRegion` as a value. */
  datatype RegionData = RegionData(
    index: int,
    name: seq<byte>,
    fields: seq<RegionField>,
    tailWords: seq<u16>,
    adjacencyField: Option<nat>,
    regionCodeField: Option<nat>)

  /** The field indices point at fields. */
  predicate WellIndexed(d: RegionData)
  {
    (d.adjacencyField.Some? ==> d.adjacencyField.value < |d.fields|)
    && (d.regionCodeField.Some? ==> d.regionCodeField.value < |d.fields|)
  }

  // ---------------------------------------------------------------------------
  // Region codes and field classification

  /** A character of the class `[A-Z0-9]`. */
  predicate CodeChar(b: byte)
  {
    IsUpperAscii(b) || '0' as int <= b <= '9' as int
  }

  /** The pattern `rp([A-Z0-9]{2})` matches at `i`. */
  predicate CodeAt(t: seq<byte>, i: nat)
  {
    i + 4 <= |t| && t[i] == 'r' as int && t[i + 1] == 'p' as int && CodeChar(t[i + 2]) && CodeChar(t[i + 3])
  }

  /** The first match at or after `from`. */
  function CodeFrom(t: seq<byte>, from: nat): (r: Option<nat>)
    ensures r.Some? ==> r.value + 4 <= |t|
    decreases |t| - from
  {
    if from + 4 > |t| then None
    else if CodeAt(t, from) then Some(from)
    else CodeFrom(t, from + 1)
  }

  /** The search finds the leftmost match at or after `from`, if any. */
  lemma {:induction false} CodeFromSpec(t: seq<byte>, from: nat)
    ensures var r := CodeFrom(t, from);
            (r.Some? ==> from <= r.value && CodeAt(t, r.value) && forall j: nat :: from <= j < r.value ==> !CodeAt(t, j))
            && (r.None? ==> forall j: nat :: from <= j ==> !CodeAt(t, j))
    decreases |t| - from
  {
    if from + 4 <= |t| && !CodeAt(t, from) {
      CodeFromSpec(t, from + 1);
    }
  }

  /** `_find_region_code`: the two characters after the first `rp` that is followed by two
      characters of `[A-Z0-9]`. */
  function FindRegionCode(t: seq<byte>): Option<seq<byte>>
  {
    match CodeFrom(t, 0)
    case None => None
    case Some(i) => Some(t[i + 2..i + 4])
  }

  /** A code is found exactly when the pattern occurs; it is then two characters of
      `[A-Z0-9]` that follow an `rp` in the text, at the leftmost match. */
  lemma FindRegionCodeSpec(t: seq<byte>)
    ensures FindRegionCode(t).Some? <==> exists i: nat :: CodeAt(t, i)
    ensures FindRegionCode(t).Some? ==>
              var c := FindRegionCode(t).value;
              |c| == 2 && CodeChar(c[0]) && CodeChar(c[1])
              && exists i: nat :: CodeAt(t, i) && t[i + 2..i + 4] == c && forall j: nat :: j < i ==> !CodeAt(t, j)
  {
    var p := CodeFrom(t, 0);
    CodeFromSpec(t, 0);
    if p.Some? {
      assert CodeAt(t, p.value);
    }
  }

  /** A field that `parse_region_block` takes as the adjacency list: non-empty, upper case
      and of even length. */
  predicate IsAdjacencyText(t: seq<byte>)
  {
    t != [] && IsUpperText(t) && |t| % 2 == 0
  }

  /** A field that holds a region code. */
  predicate HasRegionCode(t: seq<byte>)
  {
    FindRegionCode(t).Some?
  }

  /** The index of the first field whose text satisfies `p`, as the classification loop of
      `parse_region_block` finds it (it keeps the first hit and ignores later ones). */
  function FirstWhere(fields: seq<RegionField>, p: seq<byte> -> bool): Option<nat>
  {
    if fields == [] then None
    else
      var before := FirstWhere(fields[..|fields| - 1], p);
      if before.Some? then before
      else if p(fields[|fields| - 1].raw) then Some(|fields| - 1)
      else None
  }

  /** The first hit is the least index whose text satisfies `p`; no hit means no field
      does. */
  lemma {:induction false} FirstWhereSpec(fields: seq<RegionField>, p: seq<byte> -> bool)
    ensures var r := FirstWhere(fields, p);
            (r.Some? ==> r.value < |fields| && p(fields[r.value].raw)
                         && forall j :: 0 <= j < r.value ==> !p(fields[j].raw))
            && (r.None? ==> forall j :: 0 <= j < |fields| ==> !p(fields[j].raw))
  {
    if fields != [] {
      var init := fields[..|fields| - 1];
      FirstWhereSpec(init, p);
      assert forall j :: 0 <= j < |init| ==> init[j] == fields[j];
    }
  }

  // ---------------------------------------------------------------------------
  // Parsing

  /** `block[:33]`. */
  function HeaderOf(block: seq<byte>): (r: seq<byte>)
    ensures |r| <= HeaderLen
  {
    block[..if |block| < HeaderLen then |block| else HeaderLen]
  }

  /** The name and the cursor after it: the header up to its first NUL and the offset past
      that NUL, or, without a NUL, the header with trailing NULs stripped and its length. */
  function SplitName(header: seq<byte>): (r: (seq<byte>, nat))
    ensures r.1 <= |header| + 1
  {
    match IndexOf(header, 0, 0)
    case None => (RStrip(header, {0}), |RStrip(header, {0})|)
    case Some(e) => (header[..e], e + 1)
  }

  /** The field loop of `parse_region_block`, from `cursor` until the cursor reaches the
      header length: each field runs to the next NUL of the header (and then has a trailing
      NUL), or, without one, is the rest of the header and ends the loop. */
  function ParseFields(header: seq<byte>, cursor: nat): (r: seq<RegionField>)
    requires |header| <= HeaderLen
    decreases HeaderLen - cursor
  {
    if cursor >= HeaderLen then []
    else
      match IndexOf(header, 0, cursor)
      case None => [RegionField(From(header, cursor), false)]
      case Some(z) => [RegionField(header[cursor..z], true)] + ParseFields(header, z + 1)
  }

  /** `parse_region_block`: the name, the fields and the classification of a header, and
      the sixteen words of the last 32 bytes; `struct.error` when the block is shorter
      than 32 bytes. */
  function ParseBlock(block: seq<byte>, index: int): (r: Result<RegionData>)
    ensures r.Ok? <==> |block| >= TailLen
  {
    if |block| < TailLen then Err(TailTooShort)
    else
      var header := HeaderOf(block);
      var split := SplitName(header);
      var fields := ParseFields(header, split.1);
      Ok(RegionData(index, split.0, fields, UnpackWords(block[|block| - TailLen..]),
                    FirstWhere(fields, IsAdjacencyText), FirstWhere(fields, HasRegionCode)))
  }

  /** No field holds a NUL, and every field but the last has a trailing NUL. */
  predicate FieldsShaped(fs: seq<RegionField>)
  {
    forall i :: 0 <= i < |fs| ==> 0 !in fs[i].raw && (i < |fs| - 1 ==> fs[i].hasTrailingNull)
  }

  /** The fields read from any cursor are shaped so. */
  lemma {:induction false} ParseFieldsShape(header: seq<byte>, cursor: nat)
    requires |header| <= HeaderLen
    ensures FieldsShaped(ParseFields(header, cursor))
    decreases HeaderLen - cursor
  {
    if cursor < HeaderLen {
      var next := IndexOf(header, 0, cursor);
      if next.None? {
        var f := RegionField(From(header, cursor), false);
        assert ParseFields(header, cursor) == [f];
        assert forall j :: cursor <= j < |header| ==> header[j] != 0;
        assert 0 !in f.raw;
      } else {
        var z := next.value;
        var f := RegionField(header[cursor..z], true);
        var rest := ParseFields(header, z + 1);
        assert ParseFields(header, cursor) == [f] + rest;
        ParseFieldsShape(header, z + 1);
        assert forall j :: cursor <= j < z ==> header[j] != 0;
        assert 0 !in f.raw;
        ShapedCons(f, rest);
      }
    }
  }

  lemma ShapedCons(f: RegionField, rest: seq<RegionField>)
    requires 0 !in f.raw && f.hasTrailingNull && FieldsShaped(rest)
    ensures FieldsShaped([f] + rest)
  {
    var fs := [f] + rest;
    forall i | 0 < i < |fs|
      ensures fs[i] == rest[i - 1]
    {
    }
  }

  /** The parsed tail always has sixteen words, and the field indices point at fields: an
      adjacency field is upper case and of even length, a region-code field holds a code,
      and every earlier field is neither. */
  lemma ParseBlockShape(block: seq<byte>, index: int)
    requires ParseBlock(block, index).Ok?
    ensures var d := ParseBlock(block, index).value;
            |d.tailWords| == 16 && WellIndexed(d)
            && (d.adjacencyField.Some? ==> IsAdjacencyText(d.fields[d.adjacencyField.value].raw))
            && (d.regionCodeField.Some? ==> HasRegionCode(d.fields[d.regionCodeField.value].raw))
            && forall j :: 0 <= j < |d.fields| ==>
                 (d.adjacencyField.None? || j < d.adjacencyField.value ==> !IsAdjacencyText(d.fields[j].raw))
                 && (d.regionCodeField.None? || j < d.regionCodeField.value ==> !HasRegionCode(d.fields[j].raw))
  {
    var d := ParseBlock(block, index).value;
    FirstWhereSpec(d.fields, IsAdjacencyText);
    FirstWhereSpec(d.fields, HasRegionCode);
  }

  // ---------------------------------------------------------------------------
  // Encoding

  /** A field's bytes followed by its NUL, if it had one. */
  function FieldBytes(f: RegionField): seq<byte>
  {
    if f.hasTrailingNull then f.raw + [0] else f.raw
  }

  function FieldsBytes(fs: seq<RegionField>): seq<byte>
  {
    if fs == [] then [] else FieldBytes(fs[0]) + FieldsBytes(fs[1..])
  }

  lemma {:induction false} FieldsBytesSnoc(fs: seq<RegionField>, f: RegionField)
    ensures FieldsBytes(fs + [f]) == FieldsBytes(fs) + FieldBytes(f)
  {
    if fs == [] {
      assert [] + [f] == [f];
      assert FieldsBytes([f][1..]) == [];
    } else {
      assert (fs + [f])[1..] == fs[1..] + [f];
      FieldsBytesSnoc(fs[1..], f);
      AppendAssoc3(FieldBytes(fs[0]), FieldsBytes(fs[1..]), FieldBytes(f));
    }
  }

  /** The name, its NUL and the fields: what `to_bytes` puts before the padding. */
  function HeaderBytes(d: RegionData): seq<byte>
  {
    d.name + [0] + FieldsBytes(d.fields)
  }

  /** The tail: the packed words, padded with NULs to 32 bytes and cut to 32 bytes. */
  function TailBytes(ws: seq<u16>): (r: seq<byte>)
    ensures |r| == TailLen
  {
    var packed := PackWords(ws);
    var padded := if |packed| < TailLen then packed + Zeros(TailLen - |packed|) else packed;
    padded[..TailLen]
  }

  /** `MapRegion.to_bytes`: the header padded with NULs to 33 bytes, then the tail; a
      ValueError when the header is longer than 33 bytes. */
  function Encode(d: RegionData): (r: Result<seq<byte>>)
    ensures r.Ok? ==> |r.value| == RecordLen
  {
    var header := HeaderBytes(d);
    if |header| > HeaderLen then Err(HeaderOverflow)
    else Ok(header + Zeros(HeaderLen - |header|) + TailBytes(d.tailWords))
  }

  /** The encoding is exactly 65 bytes; it fails exactly when name and fields exceed the
      header (they never spill into the tail); it starts with them, pads with NULs, and
      its tail holds the first sixteen words (zero words after the given ones). */
  lemma EncodeShape(d: RegionData)
    ensures Encode(d).Ok? <==> |HeaderBytes(d)| <= HeaderLen
    ensures Encode(d).Ok? ==>
              var b := Encode(d).value;
              |b| == RecordLen && b[..|HeaderBytes(d)|] == HeaderBytes(d)
              && (forall i :: |HeaderBytes(d)| <= i < HeaderLen ==> b[i] == 0)
              && forall k :: 0 <= k < 16 ==> WordAt(b, HeaderLen + 2 * k) == (if k < |d.tailWords| then d.tailWords[k] else 0)
  {
    if Encode(d).Ok? {
      var b := Encode(d).value;
      var h := HeaderBytes(d);
      var tail := TailBytes(d.tailWords);
      assert b == (h + Zeros(HeaderLen - |h|)) + tail;
      forall k | 0 <= k < 16
        ensures WordAt(b, HeaderLen + 2 * k) == (if k < |d.tailWords| then d.tailWords[k] else 0)
      {
        TailWord(d.tailWords, k);
        assert b[HeaderLen + 2 * k] == tail[2 * k] && b[HeaderLen + 2 * k + 1] == tail[2 * k + 1];
      }
    }
  }

  /** Word `k` of the tail is the `k`-th given word, or zero past the given ones. */
  lemma TailWord(ws: seq<u16>, k: nat)
    requires k < 16
    ensures WordAt(TailBytes(ws), 2 * k) == (if k < |ws| then ws[k] else 0)
  {
    var packed := PackWords(ws);
    var padded := if |packed| < TailLen then packed + Zeros(TailLen - |packed|) else packed;
    assert TailBytes(ws)[2 * k] == padded[2 * k] && TailBytes(ws)[2 * k + 1] == padded[2 * k + 1];
    if k < |ws| {
      PackWordsAt(ws, k);
      assert padded[2 * k] == packed[2 * k] && padded[2 * k + 1] == packed[2 * k + 1];
    }
  }

  // ---------------------------------------------------------------------------
  // Round trip

  /** The fields read from `cursor` encode back to the rest of the header. */
  lemma {:induction false} FieldsRoundTrip(header: seq<byte>, cursor: nat)
    requires cursor <= |header| <= HeaderLen
    ensures FieldsBytes(ParseFields(header, cursor)) == header[cursor..]
    decreases HeaderLen - cursor
  {
    if cursor >= HeaderLen {
      assert header[cursor..] == [];
    } else {
      var next := IndexOf(header, 0, cursor);
      if next.None? {
        LastFieldRoundTrip(header, cursor);
      } else {
        FieldsRoundTrip(header, next.value + 1);
        FieldRoundTrip(header, cursor);
      }
    }
  }

  /** Without a further NUL, the one remaining field is the rest of the header. */
  lemma LastFieldRoundTrip(header: seq<byte>, cursor: nat)
    requires cursor <= |header| <= HeaderLen && cursor < HeaderLen && IndexOf(header, 0, cursor).None?
    ensures FieldsBytes(ParseFields(header, cursor)) == header[cursor..]
  {
    var f := RegionField(header[cursor..], false);
    assert ParseFields(header, cursor) == [f] + [];
    FieldsBytesCons(f, []);
    AppendNil(f.raw);
  }

  /** A field ended by a NUL encodes to the header up to and including that NUL. */
  lemma FieldRoundTrip(header: seq<byte>, cursor: nat)
    requires cursor <= |header| <= HeaderLen && cursor < HeaderLen && IndexOf(header, 0, cursor).Some?
    requires var z := IndexOf(header, 0, cursor).value;
             FieldsBytes(ParseFields(header, z + 1)) == header[z + 1..]
    ensures FieldsBytes(ParseFields(header, cursor)) == header[cursor..]
  {
    var z := IndexOf(header, 0, cursor).value;
    var f := RegionField(header[cursor..z], true);
    var rest := ParseFields(header, z + 1);
    ParseFieldsStep(header, cursor);
    FieldsBytesCons(f, rest);
    SliceAround(header, cursor, z);
  }

  /** One step of the field loop, from a cursor inside the header. */
  lemma ParseFieldsStep(header: seq<byte>, cursor: nat)
    requires |header| <= HeaderLen && cursor < HeaderLen
    ensures var next := IndexOf(header, 0, cursor);
            next.Some? ==>
              header[next.value] == 0
              && ParseFields(header, cursor) == [RegionField(header[cursor..next.value], true)] + ParseFields(header, next.value + 1)
  {
  }

  lemma FieldsBytesCons(f: RegionField, rest: seq<RegionField>)
    ensures FieldsBytes([f] + rest) == FieldBytes(f) + FieldsBytes(rest)
  {
    assert ([f] + rest)[1..] == rest;
  }

  /** A header with a NUL parses into a name and fields that encode back to it. */
  lemma HeaderRoundTrip(header: seq<byte>, e: nat)
    requires |header| == HeaderLen && IndexOf(header, 0, 0) == Some(e)
    ensures var split := SplitName(header);
            split.0 + [0] + FieldsBytes(ParseFields(header, split.1)) == header
  {
    assert SplitName(header) == (header[..e], e + 1);
    FieldsRoundTrip(header, e + 1);
    SliceAround(header, 0, e);
    assert header[0..] == header && header[0..e] == header[..e];
  }

  /** A header that exactly fills its 33 bytes is followed directly by the tail. */
  lemma EncodeFull(d: RegionData)
    requires |HeaderBytes(d)| == HeaderLen
    ensures Encode(d) == Ok(HeaderBytes(d) + TailBytes(d.tailWords))
  {
    assert Zeros(0) == [];
    AppendNil(HeaderBytes(d));
  }

  /** Sixteen words unpacked from 32 bytes re-pack to those bytes. */
  lemma TailRoundTrip(tail: seq<byte>)
    requires |tail| == TailLen
    ensures TailBytes(UnpackWords(tail)) == tail
  {
    PackUnpackWords(tail);
    assert PackWords(UnpackWords(tail))[..TailLen] == tail;
  }

  /** For a 65-byte record whose header holds a NUL, encoding the parsed region gives the
      record back; when the header holds no NUL, the name fills the header and encoding
      the parsed region fails. */
  lemma RoundTrip(block: seq<byte>, index: int)
    requires |block| == RecordLen
    ensures ParseBlock(block, index).Ok?
    ensures 0 in block[..HeaderLen] ==> Encode(ParseBlock(block, index).value) == Ok(block)
    ensures 0 !in block[..HeaderLen] ==> Encode(ParseBlock(block, index).value).Err?
  {
    var d := ParseBlock(block, index).value;
    var header := block[..HeaderLen];
    var tail := block[HeaderLen..];
    assert HeaderOf(block) == header;
    assert block[|block| - TailLen..] == tail;
    var split := SplitName(header);
    assert d == RegionData(index, split.0, ParseFields(header, split.1), UnpackWords(tail),
                           d.adjacencyField, d.regionCodeField);
    match IndexOf(header, 0, 0)
    case Some(e) =>
      HeaderRoundTrip(header, e);
      EncodeFull(d);
      TailRoundTrip(tail);
      assert block == header + tail;
    case None =>
      RStripSpec(header, {0});
      assert RStrip(header, {0}) == header;
      assert |HeaderBytes(d)| > HeaderLen;
  }

  // ---------------------------------------------------------------------------
  // Map position and adjacency

  datatype MapPosition = MapPosition(panel: byte, xRaw: byte, yRaw: byte, widthRaw: byte)

  /** `map_position`: none with fewer than eight tail words; otherwise the panel is the low
      byte of word 7 and x, y and width are the high bytes of words 5, 6 and 7. */
  function MapPositionOf(tail: seq<u16>): Option<MapPosition>
  {
    if |tail| < 8 then None
    else Some(MapPosition(LowByte(tail[7]), HighByte(tail[5]), HighByte(tail[6]), HighByte(tail[7])))
  }

  /** Python's `v & 0xFF` for any integer, negative ones included. */
  function Mask8(v: int): byte
  {
    v % 0x100
  }

  /** The tail words after `set_map_position`: padded with zero words to eight, then words
      5 and 6 take the new x and y as high byte and word 7 holds width and panel. */
  function WithPosition(tail: seq<u16>, panel: int, xRaw: int, yRaw: int, widthRaw: int): (r: seq<u16>)
    ensures |r| == (if |tail| < 8 then 8 else |tail|)
  {
    var padded := if |tail| < 8 then tail + seq(8 - |tail|, _ => 0) else tail;
    padded[5 := WordOf(LowByte(padded[5]), Mask8(xRaw))]
          [6 := WordOf(LowByte(padded[6]), Mask8(yRaw))]
          [7 := WordOf(Mask8(panel), Mask8(widthRaw))]
  }

  /** After `set_map_position`, `map_position` reads back the masked arguments; the low
      bytes of words 5 and 6 are kept, and every other word is kept or, past the old end,
      zero. */
  lemma PositionRoundTrip(tail: seq<u16>, panel: int, xRaw: int, yRaw: int, widthRaw: int)
    ensures var r := WithPosition(tail, panel, xRaw, yRaw, widthRaw);
            MapPositionOf(r) == Some(MapPosition(Mask8(panel), Mask8(xRaw), Mask8(yRaw), Mask8(widthRaw)))
            && LowByte(r[5]) == (if 5 < |tail| then LowByte(tail[5]) else 0)
            && LowByte(r[6]) == (if 6 < |tail| then LowByte(tail[6]) else 0)
            && forall i :: 0 <= i < |r| && i != 5 && i != 6 && i != 7 ==> r[i] == (if i < |tail| then tail[i] else 0)
  {
    var padded := if |tail| < 8 then tail + seq(8 - |tail|, _ => 0) else tail;
    WordOfBytes(LowByte(padded[5]), Mask8(xRaw));
    WordOfBytes(LowByte(padded[6]), Mask8(yRaw));
    WordOfBytes(Mask8(panel), Mask8(widthRaw));
  }

  /** The text split into two-character codes. */
  function Pairs(t: seq<byte>): (r: seq<seq<byte>>)
    requires |t| % 2 == 0
    ensures |r| == |t| / 2
  {
    seq(|t| / 2, i requires 0 <= i < |t| / 2 => t[2 * i..2 * i + 2])
  }

  /** `adjacent_codes`: no codes without an adjacency field or when its text is empty or of
      odd length; otherwise the text in two-character codes. */
  function AdjacentCodesOf(d: RegionData): seq<seq<byte>>
    requires WellIndexed(d)
  {
    match d.adjacencyField
    case None => []
    case Some(idx) =>
      var text := d.fields[idx].raw;
      if text == [] || |text| % 2 != 0 then [] else Pairs(text)
  }

  function Flatten(codes: seq<seq<byte>>): seq<byte>
  {
    if codes == [] then [] else codes[0] + Flatten(codes[1..])
  }

  /** `"".join(code.upper() for code in codes)`. */
  function JoinUpper(codes: seq<seq<byte>>): (r: seq<byte>)
  {
    if codes == [] then [] else Upper(codes[0]) + JoinUpper(codes[1..])
  }

  /** The region after `set_adjacent_codes`: unchanged without an adjacency field,
      otherwise that field's text is the upper-cased codes joined, its NUL flag kept. */
  function WithAdjacentCodes(d: RegionData, codes: seq<seq<byte>>): (r: RegionData)
    requires WellIndexed(d)
    ensures WellIndexed(r)
  {
    match d.adjacencyField
    case None => d
    case Some(idx) =>
      d.(fields := d.fields[idx := RegionField(JoinUpper(codes), d.fields[idx].hasTrailingNull)])
  }

  /** Codes are pieces of the adjacency text: each has two characters and together they
      spell the text. */
  lemma AdjacentCodesSpell(d: RegionData)
    requires WellIndexed(d)
    ensures var codes := AdjacentCodesOf(d);
            forall i :: 0 <= i < |codes| ==> |codes[i]| == 2
    ensures AdjacentCodesOf(d) != [] ==> Flatten(AdjacentCodesOf(d)) == d.fields[d.adjacencyField.value].raw
  {
    if AdjacentCodesOf(d) != [] {
      var t := d.fields[d.adjacencyField.value].raw;
      PairsFlatten(t, 0);
      assert t[0..] == t;
    }
  }

  lemma {:induction false} PairsFlatten(t: seq<byte>, k: nat)
    requires |t| % 2 == 0 && k <= |t| / 2
    ensures Flatten(Pairs(t)[k..]) == t[2 * k..]
    decreases |t| / 2 - k
  {
    var ps := Pairs(t);
    if k == |t| / 2 {
      assert ps[k..] == [];
    } else {
      PairsFlatten(t, k + 1);
      assert ps[k..][1..] == ps[k + 1..];
      assert t[2 * k..] == t[2 * k..2 * k + 2] + t[2 * k + 2..];
    }
  }

  /** Setting two-character codes on a region with an adjacency field and reading them
      back gives the codes upper-cased. */
  lemma AdjacentCodesRoundTrip(d: RegionData, codes: seq<seq<byte>>)
    requires WellIndexed(d) && d.adjacencyField.Some?
    requires forall i :: 0 <= i < |codes| ==> |codes[i]| == 2
    ensures var after := AdjacentCodesOf(WithAdjacentCodes(d, codes));
            |after| == |codes| && forall i :: 0 <= i < |codes| ==> after[i] == Upper(codes[i])
  {
    var t := JoinUpper(codes);
    JoinUpperPairs(codes);
    var r := WithAdjacentCodes(d, codes);
    assert r.fields[d.adjacencyField.value].raw == t;
  }

  /** The joined upper-cased two-character codes have twice as many characters, and code
      `i` sits at `2i`. */
  lemma {:induction false} JoinUpperPairs(codes: seq<seq<byte>>)
    requires forall i :: 0 <= i < |codes| ==> |codes[i]| == 2
    ensures |JoinUpper(codes)| == 2 * |codes|
    ensures forall i :: 0 <= i < |codes| ==> JoinUpper(codes)[2 * i..2 * i + 2] == Upper(codes[i])
  {
    if codes != [] {
      JoinUpperPairs(codes[1..]);
      var rest := JoinUpper(codes[1..]);
      var t := JoinUpper(codes);
      assert t == Upper(codes[0]) + rest;
      forall i | 0 <= i < |codes|
        ensures t[2 * i..2 * i + 2] == Upper(codes[i])
      {
        if i > 0 {
          assert codes[1..][i - 1] == codes[i];
          assert t[2 * i..2 * i + 2] == rest[2 * (i - 1)..2 * (i - 1) + 2];
        }
      }
    }
  }

  // ---------------------------------------------------------------------------
  // The region object

  /** `MapRegion`, whose tail words and fields the editor updates in place. */
  class MapRegion {
    var index: int
    var name: seq<byte>
    var fields: seq<RegionField>
    var tailWords: seq<u16>
    var adjacencyFieldIndex: Option<nat>
    var regionCodeFieldIndex: Option<nat>

    function Value(): RegionData
      reads this
    {
      RegionData(index, name, fields, tailWords, adjacencyFieldIndex, regionCodeFieldIndex)
    }

    constructor (d: RegionData)
      ensures Value() == d
    {
      index := d.index;
      name := d.name;
      fields := d.fields;
      tailWords := d.tailWords;
      adjacencyFieldIndex := d.adjacencyField;
      regionCodeFieldIndex := d.regionCodeField;
    }

    /** `clone`: a fresh region with the same state. */
    method Clone() returns (c: MapRegion)
      ensures fresh(c) && c.Value() == Value()
    {
      c := new MapRegion(Value());
    }

    /** `set_map_position`: pad the tail to eight words, then store the position. */
    method SetMapPosition(panel: int, xRaw: int, yRaw: int, widthRaw: int)
      modifies this
      ensures tailWords == WithPosition(old(tailWords), panel, xRaw, yRaw, widthRaw)
      ensures Value() == old(Value()).(tailWords := tailWords)
    {
      while |tailWords| < 8
        invariant |old(tailWords)| < 8 ==> |tailWords| <= 8
        invariant |old(tailWords)| >= 8 ==> tailWords == old(tailWords)
        invariant tailWords == old(tailWords) + seq(|tailWords| - |old(tailWords)|, _ => 0)
        invariant Value() == old(Value()).(tailWords := tailWords)
        decreases 8 - |tailWords|
      {
        tailWords := tailWords + [0];
      }
      tailWords := tailWords[5 := WordOf(LowByte(tailWords[5]), Mask8(xRaw))];
      tailWords := tailWords[6 := WordOf(LowByte(tailWords[6]), Mask8(yRaw))];
      tailWords := tailWords[7 := WordOf(Mask8(panel), Mask8(widthRaw))];
    }

    /** `set_adjacent_codes`: nothing without an adjacency field; otherwise that field's
        text becomes the joined upper-cased codes. */
    method SetAdjacentCodes(codes: seq<seq<byte>>)
      requires WellIndexed(Value())
      modifies this
      ensures Value() == WithAdjacentCodes(old(Value()), codes)
    {
      if adjacencyFieldIndex.None? {
        return;
      }
      var idx := adjacencyFieldIndex.value;
      fields := fields[idx := RegionField(JoinUpper(codes), fields[idx].hasTrailingNull)];
    }

    /** `to_bytes`: the name and its NUL, each field and its NUL, an overflow check, NUL
        padding to 33 bytes, then the tail. */
    method ToBytes() returns (r: Result<seq<byte>>)
      ensures r == Encode(Value())
    {
      var header := name + [0];
      for i := 0 to |fields|
        invariant header == name + [0] + FieldsBytes(fields[..i])
      {
        FieldsBytesSnoc(fields[..i], fields[i]);
        assert fields[..i + 1] == fields[..i] + [fields[i]];
        if fields[i].hasTrailingNull {
          header := header + fields[i].raw + [0];
        } else {
          header := header + fields[i].raw;
        }
      }
      assert fields[..|fields|] == fields;
      if |header| > HeaderLen {
        return Err(HeaderOverflow);
      }
      header := header + Zeros(HeaderLen - |header|);
      var tail := PackWords(tailWords);
      if |tail| < TailLen {
        tail := tail + Zeros(TailLen - |tail|);
      }
      return Ok(header + tail[..TailLen]);
    }
  }

  // ---------------------------------------------------------------------------
  // The parsing loops

  /** The field loop of `parse_region_block`. */
  method ReadFields(header: seq<byte>, start: nat) returns (fields: seq<RegionField>)
    requires |header| <= HeaderLen
    ensures fields == ParseFields(header, start)
  {
    var cursor := start;
    fields := [];
    ghost var whole := ParseFields(header, start);
    AppendNil(whole);
    while cursor < HeaderLen
      invariant whole == fields + ParseFields(header, cursor)
      decreases HeaderLen - cursor
    {
      var nextZero := IndexOf(header, 0, cursor);
      var field;
      if nextZero.None? {
        field := RegionField(From(header, cursor), false);
        assert ParseFields(header, cursor) == [field];
        cursor := HeaderLen;
        assert ParseFields(header, cursor) == [];
      } else {
        field := RegionField(header[cursor..nextZero.value], true);
        assert ParseFields(header, cursor) == [field] + ParseFields(header, nextZero.value + 1);
        cursor := nextZero.value + 1;
      }
      AppendAssoc3(fields, [field], ParseFields(header, cursor));
      fields := fields + [field];
    }
    AppendNil(fields);
  }

  /** The classification loop of `parse_region_block`: the first adjacency field and the
      first field holding a region code. */
  method ClassifyFields(fields: seq<RegionField>) returns (adjacency: Option<nat>, regionCode: Option<nat>)
    ensures adjacency == FirstWhere(fields, IsAdjacencyText)
    ensures regionCode == FirstWhere(fields, HasRegionCode)
  {
    adjacency := None;
    regionCode := None;
    for i := 0 to |fields|
      invariant adjacency == FirstWhere(fields[..i], IsAdjacencyText)
      invariant regionCode == FirstWhere(fields[..i], HasRegionCode)
    {
      assert fields[..i + 1][..i] == fields[..i] && fields[..i + 1][i] == fields[i];
      var text := fields[i].raw;
      if adjacency.None? && IsAdjacencyText(text) {
        adjacency := Some(i);
      }
      if regionCode.None? && FindRegionCode(text).Some? {
        regionCode := Some(i);
      }
    }
    assert fields[..|fields|] == fields;
  }

  /** `parse_region_block` on a fresh region object. */
  method ParseRegionBlock(block: seq<byte>, index: int) returns (r: Result<MapRegion>)
    ensures r.Ok? <==> ParseBlock(block, index).Ok?
    ensures r.Ok? ==> fresh(r.value) && r.value.Value() == ParseBlock(block, index).value
  {
    if |block| < TailLen {
      return Err(TailTooShort);
    }
    var header := HeaderOf(block);
    var nameEnd := IndexOf(header, 0, 0);
    var name, cursor;
    if nameEnd.None? {
      name := RStrip(header, {0});
      cursor := |name|;
    } else {
      name := header[..nameEnd.value];
      cursor := nameEnd.value + 1;
    }
    var fields := ReadFields(header, cursor);
    var tailWords := UnpackWords(block[|block| - TailLen..]);
    var adjacency, regionCode := ClassifyFields(fields);
    var region := new MapRegion(RegionData(index, name, fields, tailWords, adjacency, regionCode));
    return Ok(region);
  }
}
