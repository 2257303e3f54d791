/** The unit tables of the map file (editor/data.py): pointer entries 5, 8 and 11 hold
    arrays of 32-byte frames, one per unit slot, each frame sixteen little-endian words of
    which the first four carry the unit's template, owner, region and tile position. */
module Units {
  import opened Bytes

  const FrameWords: nat := 16
  /** `UNIT_FRAME_SIZE`. */
  const FrameSize: nat := 32

  /** The `struct.error` of packing a first word outside 0..0xFFFF. */
  const UShortRange: string := "ushort format requires 0 <= number <= 65535"
  /** The ValueError of `add_unit` on a full table. */
  const NoFreeSlots: string := "No free slots available"
  /** The ValueError of `sync_to_pointer` when the rebuilt chunk has another size. */
  const SizeMismatch: string := "unit table size mismatch"

  /** The fields of a `PointerEntry`, as a value. */
  datatype EntryData = EntryData(index: int, start: int, count: int, data: seq<byte>, length: int)

  /** `PointerEntry`, whose data a unit table overwrites in place. */
  class PointerEntry {
    var index: int
    var start: int
    var count: int
    var data: seq<byte>
    var length: int

    constructor (index: int, start: int, count: int, data: seq<byte>, length: int)
      ensures this.index == index && this.start == start && this.count == count
      ensures this.data == data && this.length == length
    {
      this.index := index;
      this.start := start;
      this.count := count;
      this.data := data;
      this.length := length;
    }

    /** The entry's fields as a value. */
    function Value(): EntryData
      reads this
    {
      EntryData(index, start, count, data, length)
    }

    /** `classification`: a unit table when the entry is one of the unit slots and holds at
        least one frame. */
    function Classification(): (r: string)
      reads this
      ensures r == "unit_table" <==> index in UnitPointers && |data| >= FrameSize
    {
      if index in UnitPointers && |data| >= FrameSize then "unit_table" else "raw_bytes"
    }

    /** `clone`: a fresh entry with the same fields. */
    method Clone() returns (c: PointerEntry)
      ensures fresh(c) && c.index == index && c.start == start && c.count == count
      ensures c.data == data && c.length == length
    {
      c := new PointerEntry(index, start, count, data, length);
    }
  }

  /** `UNIT_POINTER_MAP`: the pointer entries that hold unit tables, and their kinds. */
  const UnitPointers: map<int, string> := map[5 := "air", 8 := "surface", 11 := "sub"]

  // ---------------------------------------------------------------------------
  // Unit records

  /** `UnitRecord`. */
  datatype UnitRecord = UnitRecord(
    slot: int,
    templateId: int,
    ownerRaw: int,
    regionIndex: int,
    tileX: int,
    tileY: int,
    rawWords: seq<u16>,
    templateIcon: Option<int>)

  /** The sixteen words `encode` starts from: the raw words (sixteen zeros when there are
      none), padded with zeros to sixteen and cut to sixteen. */
  function BaseWords(raw: seq<u16>): (r: seq<u16>)
    ensures |r| == FrameWords
  {
    var words := if raw == [] then Zeros(FrameWords) else raw;
    var padded := if |words| < FrameWords then words + Zeros(FrameWords - |words|) else words;
    padded[..FrameWords]
  }

  /** `UnitRecord.encode`: the base words with word 0 set to owner and template, and words
      1 to 3 to region and tile position, each masked to sixteen bits; `struct.error` when
      the owner does not fit a byte, since word 0 then leaves 0..0xFFFF. */
  function Encode(u: UnitRecord): Result<seq<byte>>
  {
    if !(0 <= u.ownerRaw < 0x100) then Err(UShortRange)
    else
      var words := BaseWords(u.rawWords)
                     [0 := WordOf(u.templateId % 0x100, u.ownerRaw)]
                     [1 := u.regionIndex % 0x1_0000]
                     [2 := u.tileX % 0x1_0000]
                     [3 := u.tileY % 0x1_0000];
      Ok(PackWords(words))
  }

  /** An encoding is one 32-byte frame whose first four words hold the masked fields and
      whose other words are the base words. */
  lemma EncodeShape(u: UnitRecord)
    ensures Encode(u).Ok? <==> 0 <= u.ownerRaw < 0x100
    ensures Encode(u).Ok? ==>
              var f := Encode(u).value;
              |f| == FrameSize
              && f[0] == u.templateId % 0x100 && f[1] == u.ownerRaw
              && WordAt(f, 2) == u.regionIndex % 0x1_0000
              && WordAt(f, 4) == u.tileX % 0x1_0000
              && WordAt(f, 6) == u.tileY % 0x1_0000
              && forall k :: 4 <= k < FrameWords ==> WordAt(f, 2 * k) == BaseWords(u.rawWords)[k]
  {
    if Encode(u).Ok? {
      var words := BaseWords(u.rawWords)
                     [0 := WordOf(u.templateId % 0x100, u.ownerRaw)]
                     [1 := u.regionIndex % 0x1_0000]
                     [2 := u.tileX % 0x1_0000]
                     [3 := u.tileY % 0x1_0000];
      var f := PackWords(words);
      PackWordsAt(words, 0);
      PackWordsAt(words, 1);
      PackWordsAt(words, 2);
      PackWordsAt(words, 3);
      WordOfBytes(u.templateId % 0x100, u.ownerRaw);
      WordOfBytes(f[0], f[1]);
      forall k | 4 <= k < FrameWords
        ensures WordAt(f, 2 * k) == BaseWords(u.rawWords)[k]
      {
        PackWordsAt(words, k);
      }
    }
  }

  /** The unit `parse_unit_table` reads from a frame: template and owner are the low and
      high byte of word 0, region and tile position are words 1 to 3, and all sixteen
      words are kept. */
  function DecodeFrame(frame: seq<byte>, slot: int): (u: UnitRecord)
    requires |frame| == FrameSize
  {
    var ws := UnpackWords(frame);
    UnitRecord(slot, LowByte(ws[0]), HighByte(ws[0]), ws[1], ws[2], ws[3], ws, None)
  }

  /** The template icon plays no part in a unit's frame. */
  lemma EncodeIgnoresIcon(u: UnitRecord, icon: Option<int>)
    ensures Encode(u.(templateIcon := icon)) == Encode(u)
  {
  }

  /** Tables whose units encode alike rebuild alike. */
  lemma {:induction false} RebuildFramesAlike(a: seq<UnitRecord>, b: seq<UnitRecord>, n: nat)
    requires |a| == |b| && forall i :: 0 <= i < |a| ==> Encode(a[i]) == Encode(b[i])
    ensures RebuildFrames(a, n) == RebuildFrames(b, n)
  {
    if n > 0 {
      RebuildFramesAlike(a, b, n - 1);
    }
  }

  /** Encoding a decoded frame gives the frame back. */
  lemma FrameRoundTrip(frame: seq<byte>, slot: int)
    requires |frame| == FrameSize
    ensures Encode(DecodeFrame(frame, slot)) == Ok(frame)
  {
    var ws := UnpackWords(frame);
    var u := DecodeFrame(frame, slot);
    assert BaseWords(ws) == ws;
    assert WordOf(LowByte(ws[0]) % 0x100, HighByte(ws[0])) == ws[0];
    assert ws[0 := ws[0]][1 := ws[1] % 0x1_0000][2 := ws[2] % 0x1_0000][3 := ws[3] % 0x1_0000] == ws;
    PackUnpackWords(frame);
  }

  // ---------------------------------------------------------------------------
  // Parsing a table

  /** Frame `i` of a chunk. */
  function Frame(chunk: seq<byte>, i: nat): (r: seq<byte>)
    requires 32 * i + 32 <= |chunk|
    ensures |r| == FrameSize
  {
    chunk[32 * i..32 * i + 32]
  }

  /** `not any(frame)`. */
  predicate IsZeroFrame(frame: seq<byte>)
  {
    frame == Zeros(|frame|)
  }

  /** The units of the first `n` frames: one per frame that is not all zeros, numbered by
      its frame. */
  function ParseUnits(chunk: seq<byte>, n: nat): (r: seq<UnitRecord>)
    requires 32 * n <= |chunk|
    ensures |r| <= n
  {
    if n == 0 then []
    else
      var before := ParseUnits(chunk, n - 1);
      var frame := Frame(chunk, n - 1);
      if IsZeroFrame(frame) then before else before + [DecodeFrame(frame, n - 1)]
  }

  /** `len(chunk) // UNIT_FRAME_SIZE`. */
  function SlotCount(size: nat): (r: nat)
    ensures 32 * r <= size
  {
    size / 32
  }

  /** `parse_unit_table`. */
  function ParseUnitTable(chunk: seq<byte>): seq<UnitRecord>
  {
    ParseUnits(chunk, SlotCount(|chunk|))
  }

  /** The loop of `parse_unit_table`: every frame that is not all zeros, decoded in
      slot order (so its closing sort by slot leaves the list as it is). */
  method ReadUnitTable(chunk: seq<byte>) returns (units: seq<UnitRecord>)
    ensures units == ParseUnitTable(chunk)
  {
    units := [];
    var totalSlots := |chunk| / FrameSize;
    for slot := 0 to totalSlots
      invariant units == ParseUnits(chunk, slot)
    {
      var frame := chunk[32 * slot..32 * slot + 32];
      if IsZeroFrame(frame) {
        continue;
      }
      units := units + [DecodeFrame(frame, slot)];
    }
  }

  /** `u` is the unit of a frame among the first `n` that is not all zeros. */
  predicate UnitOfFrame(chunk: seq<byte>, n: nat, u: UnitRecord)
    requires 32 * n <= |chunk|
  {
    0 <= u.slot < n && !IsZeroFrame(Frame(chunk, u.slot)) && u == DecodeFrame(Frame(chunk, u.slot), u.slot)
  }

  /** Every unit is an occupied frame decoded, and slots strictly increase, so the final
      sort by slot of `parse_unit_table` changes nothing. */
  lemma {:induction false} ParseUnitsSound(chunk: seq<byte>, n: nat)
    requires 32 * n <= |chunk|
    ensures forall k :: 0 <= k < |ParseUnits(chunk, n)| ==> UnitOfFrame(chunk, n, ParseUnits(chunk, n)[k])
    ensures forall k, l :: 0 <= k < l < |ParseUnits(chunk, n)| ==> ParseUnits(chunk, n)[k].slot < ParseUnits(chunk, n)[l].slot
  {
    if n > 0 {
      ParseUnitsSound(chunk, n - 1);
      var before := ParseUnits(chunk, n - 1);
      forall k | 0 <= k < |before|
        ensures UnitOfFrame(chunk, n, before[k])
      {
        assert UnitOfFrame(chunk, n - 1, before[k]);
      }
      var frame := Frame(chunk, n - 1);
      if !IsZeroFrame(frame) {
        var u := DecodeFrame(frame, n - 1);
        SnocParts(before, u);
        forall k | 0 <= k < |before|
          ensures before[k].slot < u.slot
        {
          assert UnitOfFrame(chunk, n - 1, before[k]);
        }
      }
    }
  }

  lemma SnocParts<T>(s: seq<T>, x: T)
    ensures |s + [x]| == |s| + 1 && (s + [x])[|s|] == x
    ensures forall k :: 0 <= k < |s| ==> (s + [x])[k] == s[k]
  {
  }

  /** Every occupied frame yields a unit. */
  lemma {:induction false} ParseUnitsComplete(chunk: seq<byte>, n: nat, i: nat)
    requires 32 * n <= |chunk| && i < n && !IsZeroFrame(Frame(chunk, i))
    ensures exists k :: 0 <= k < |ParseUnits(chunk, n)| && ParseUnits(chunk, n)[k].slot == i
  {
    var before := ParseUnits(chunk, n - 1);
    if i < n - 1 {
      ParseUnitsComplete(chunk, n - 1, i);
      var k :| 0 <= k < |before| && before[k].slot == i;
      if !IsZeroFrame(Frame(chunk, n - 1)) {
        SnocParts(before, DecodeFrame(Frame(chunk, n - 1), n - 1));
      }
      assert ParseUnits(chunk, n)[k] == before[k];
    } else {
      SnocParts(before, DecodeFrame(Frame(chunk, n - 1), n - 1));
      assert ParseUnits(chunk, n)[|before|].slot == i;
    }
  }

  /** No frame that is not all zeros follows an all-zero frame among the first `n`. */
  predicate ZerosLast(chunk: seq<byte>, n: nat)
    requires 32 * n <= |chunk|
  {
    forall i, j :: 0 <= i < j < n && IsZeroFrame(Frame(chunk, i)) ==> IsZeroFrame(Frame(chunk, j))
  }

  /** When the occupied frames come first, unit `k` sits in slot `k` and the units are
      exactly the occupied frames. */
  lemma {:induction false} ParseUnitsPacked(chunk: seq<byte>, n: nat)
    requires 32 * n <= |chunk| && ZerosLast(chunk, n)
    ensures forall k :: 0 <= k < |ParseUnits(chunk, n)| ==> ParseUnits(chunk, n)[k] == DecodeFrame(Frame(chunk, k), k)
    ensures forall i :: 0 <= i < n ==> (i < |ParseUnits(chunk, n)| <==> !IsZeroFrame(Frame(chunk, i)))
  {
    if n > 0 {
      assert ZerosLast(chunk, n - 1);
      ParseUnitsPacked(chunk, n - 1);
      var before := ParseUnits(chunk, n - 1);
      var frame := Frame(chunk, n - 1);
      if !IsZeroFrame(frame) {
        assert forall i :: 0 <= i < n - 1 ==> !IsZeroFrame(Frame(chunk, i));
        assert |before| == n - 1;
        SnocParts(before, DecodeFrame(frame, n - 1));
      }
    }
  }

  // ---------------------------------------------------------------------------
  // Rebuilding a table

  /** The first `n` frames `rebuild_chunk` emits: unit `i` encoded in frame `i`, an
      all-zero frame past the last unit; the first encoding error stops it. */
  function RebuildFrames(units: seq<UnitRecord>, n: nat): Result<seq<byte>>
  {
    if n == 0 then Ok([])
    else
      match RebuildFrames(units, n - 1)
      case Err(m) => Err(m)
      case Ok(prefix) =>
        if n - 1 < |units| then
          match Encode(units[n - 1])
          case Err(m) => Err(m)
          case Ok(f) => Ok(prefix + f)
        else Ok(prefix + Zeros(FrameSize))
  }

  /** Once a frame fails to encode, the rebuild fails with that error. */
  lemma {:induction false} RebuildErrStays(units: seq<UnitRecord>, i: nat, n: nat)
    requires i <= n && RebuildFrames(units, i).Err?
    ensures RebuildFrames(units, n) == RebuildFrames(units, i)
    decreases n - i
  {
    if i < n {
      RebuildErrStays(units, i, n - 1);
    }
  }

  /** `rebuild_chunk`. */
  function Rebuild(units: seq<UnitRecord>, maxSlots: nat): Result<seq<byte>>
  {
    RebuildFrames(units, maxSlots)
  }

  /** The frame that `rebuild_chunk` puts at position `i`. */
  function SlotFrame(units: seq<UnitRecord>, i: nat): Result<seq<byte>>
  {
    if i < |units| then Encode(units[i]) else Ok(Zeros(FrameSize))
  }

  /** The rebuild fails exactly when some unit placed in it cannot be encoded. */
  lemma {:induction false} RebuildOk(units: seq<UnitRecord>, n: nat)
    ensures RebuildFrames(units, n).Ok? <==> forall i :: 0 <= i < n ==> SlotFrame(units, i).Ok?
  {
    if n > 0 {
      RebuildOk(units, n - 1);
      assert RebuildFrames(units, n).Ok? <==> RebuildFrames(units, n - 1).Ok? && SlotFrame(units, n - 1).Ok?;
    }
  }

  /** The rebuilt chunk has `n` frames, frame `i` being unit `i` encoded (by list position,
      whatever the unit's slot) or all zeros past the last unit. */
  lemma {:induction false} RebuildFrameAt(units: seq<UnitRecord>, n: nat, i: nat)
    requires RebuildFrames(units, n).Ok? && i < n
    ensures |RebuildFrames(units, n).value| == 32 * n
    ensures SlotFrame(units, i).Ok? && Frame(RebuildFrames(units, n).value, i) == SlotFrame(units, i).value
  {
    var prefix := RebuildFrames(units, n - 1).value;
    var f := SlotFrame(units, n - 1).value;
    assert RebuildFrames(units, n).value == prefix + f;
    if i < n - 1 {
      RebuildFrameAt(units, n - 1, i);
      FrameOfLonger(prefix, f, i);
    } else if n > 1 {
      RebuildFrameAt(units, n - 1, 0);
      FrameAtEnd(prefix, f, n - 1);
    } else {
      FrameAtEnd(prefix, f, 0);
    }
  }

  lemma FrameOfLonger(a: seq<byte>, b: seq<byte>, i: nat)
    requires 32 * i + 32 <= |a|
    ensures Frame(a + b, i) == Frame(a, i)
  {
  }

  lemma FrameAtEnd(a: seq<byte>, f: seq<byte>, m: nat)
    requires |a| == 32 * m && |f| == 32
    ensures Frame(a + f, m) == f && |a + f| == 32 * (m + 1)
  {
  }

  /** Two chunks of `n` frames with the same frames are the same. */
  lemma SameFrames(a: seq<byte>, b: seq<byte>, n: nat)
    requires |a| == |b| == 32 * n
    requires forall i :: 0 <= i < n ==> Frame(a, i) == Frame(b, i)
    ensures a == b
  {
    forall k | 0 <= k < |a|
      ensures a[k] == b[k]
    {
      var i := k / 32;
      assert Frame(a, i)[k - 32 * i] == Frame(b, i)[k - 32 * i];
    }
  }

  /** Rebuilding a parsed table gives the chunk back exactly when the chunk is a whole
      number of frames and no occupied frame follows an empty one: `rebuild_chunk` places
      units by list position, so a gap moves the units after it. */
  lemma ParseRebuild(chunk: seq<byte>)
    ensures Rebuild(ParseUnitTable(chunk), SlotCount(|chunk|)) == Ok(chunk)
            <==> |chunk| % 32 == 0 && ZerosLast(chunk, SlotCount(|chunk|))
  {
    var n := SlotCount(|chunk|);
    if |chunk| % 32 == 0 && ZerosLast(chunk, n) {
      PackedRebuild(chunk, n);
    }
    if Rebuild(ParseUnitTable(chunk), n) == Ok(chunk) {
      RebuildPacked(chunk, n);
    }
  }

  /** The slot frames of a parsed table are its own frames when the occupied ones come
      first. */
  lemma PackedRebuild(chunk: seq<byte>, n: nat)
    requires |chunk| == 32 * n && ZerosLast(chunk, n)
    ensures Rebuild(ParseUnits(chunk, n), n) == Ok(chunk)
  {
    var us := ParseUnits(chunk, n);
    ParseUnitsPacked(chunk, n);
    forall i | 0 <= i < n
      ensures SlotFrame(us, i) == Ok(Frame(chunk, i))
    {
      if i < |us| {
        FrameRoundTrip(Frame(chunk, i), i);
      }
    }
    RebuildOk(us, n);
    var r := Rebuild(us, n).value;
    if n > 0 {
      RebuildFrameAt(us, n, 0);
      forall i | 0 <= i < n
        ensures Frame(r, i) == Frame(chunk, i)
      {
        RebuildFrameAt(us, n, i);
      }
      SameFrames(r, chunk, n);
    }
  }

  /** A parsed table that rebuilds to its chunk has its occupied frames first: the units'
      frames are occupied and every frame past them is empty. */
  lemma RebuildPacked(chunk: seq<byte>, n: nat)
    requires 32 * n <= |chunk| && Rebuild(ParseUnits(chunk, n), n) == Ok(chunk)
    ensures |chunk| % 32 == 0 && ZerosLast(chunk, n)
  {
    var us := ParseUnits(chunk, n);
    if n > 0 {
      RebuildFrameAt(us, n, 0);
      MultipleOf32(|chunk|, n);
      forall p | 0 <= p < n
        ensures p < |us| <==> !IsZeroFrame(Frame(chunk, p))
      {
        RebuildSlot(chunk, n, p);
      }
      CutZerosLast(chunk, n, |us|);
    }
  }

  /** In a chunk that its parsed table rebuilds, frame `p` is occupied exactly when the
      table has a `p`-th unit. */
  lemma RebuildSlot(chunk: seq<byte>, n: nat, p: nat)
    requires 32 * n <= |chunk| && Rebuild(ParseUnits(chunk, n), n) == Ok(chunk) && p < n
    ensures p < |ParseUnits(chunk, n)| <==> !IsZeroFrame(Frame(chunk, p))
  {
    var us := ParseUnits(chunk, n);
    RebuildFrameAt(us, n, p);
    if p < |us| {
      ParseUnitsSound(chunk, n);
      var u := us[p];
      assert UnitOfFrame(chunk, n, u);
      FrameRoundTrip(Frame(chunk, u.slot), u.slot);
    }
  }

  /** A length of `n` frames is a whole number of frames. */
  lemma MultipleOf32(len: nat, n: nat)
    requires len == 32 * n
    ensures len % 32 == 0
  {
  }

  /** Frames that are occupied exactly below some index have their empty frames last. */
  lemma CutZerosLast(chunk: seq<byte>, n: nat, m: nat)
    requires 32 * n <= |chunk|
    requires forall p :: 0 <= p < n ==> (p < m <==> !IsZeroFrame(Frame(chunk, p)))
    ensures ZerosLast(chunk, n)
  {
  }

  // ---------------------------------------------------------------------------
  // Editing a table

  /** `add_unit` on the list: the unit takes the next slot and keeps its raw words, or
      sixteen zero words when it has none. */
  function Added(units: seq<UnitRecord>, unit: UnitRecord): seq<UnitRecord>
  {
    units + [unit.(slot := |units|, rawWords := if unit.rawWords == [] then Zeros(FrameWords) else unit.rawWords)]
  }

  /** The list comprehension of `remove_unit`: the units whose slot differs. */
  function Without(units: seq<UnitRecord>, slot: int): (r: seq<UnitRecord>)
    ensures |r| <= |units|
  {
    if units == [] then []
    else (if units[0].slot != slot then [units[0]] else []) + Without(units[1..], slot)
  }

  /** Renumbering: unit `i` gets slot `i`. */
  function Renumbered(units: seq<UnitRecord>): (r: seq<UnitRecord>)
    ensures |r| == |units|
  {
    seq(|units|, i requires 0 <= i < |units| => units[i].(slot := i))
  }

  /** Dropping the units with the removed slot keeps every other unit. */
  lemma {:induction false} WithoutSpec(units: seq<UnitRecord>, slot: int)
    ensures forall u :: u in Without(units, slot) <==> u in units && u.slot != slot
  {
    if units != [] {
      WithoutSpec(units[1..], slot);
      assert units == [units[0]] + units[1..];
    }
  }

  /** In a table numbered 0..n-1, removing slot `k` deletes the `k`-th unit, and removing
      any other slot keeps every unit. */
  lemma RemoveNumbered(units: seq<UnitRecord>, k: int)
    requires forall i :: 0 <= i < |units| ==> units[i].slot == i
    ensures 0 <= k < |units| ==> Without(units, k) == units[..k] + units[k + 1..]
    ensures !(0 <= k < |units|) ==> Without(units, k) == units
  {
    WithoutShiftFrom(units, k, 0);
  }

  /** Dropping a slot no unit has leaves the list as it is. */
  lemma {:induction false} WithoutAbsent(units: seq<UnitRecord>, slot: int)
    requires forall i :: 0 <= i < |units| ==> units[i].slot != slot
    ensures Without(units, slot) == units
  {
    if units != [] {
      WithoutAbsent(units[1..], slot);
      assert units == [units[0]] + units[1..];
    }
  }

  /** A list numbered `base`, `base + 1`, …: removing slot `k` deletes its
      `(k - base)`-th unit. */
  lemma {:induction false} WithoutShiftFrom(units: seq<UnitRecord>, k: int, base: int)
    requires forall i :: 0 <= i < |units| ==> units[i].slot == i + base
    ensures base <= k < base + |units| ==> Without(units, k) == units[..k - base] + units[k - base + 1..]
    ensures !(base <= k < base + |units|) ==> Without(units, k) == units
    decreases |units|
  {
    if units != [] {
      var rest := units[1..];
      WithoutCons(units, k);
      if k == base {
        WithoutAbsent(rest, k);
        assert units[..0] + units[1..] == rest;
      } else {
        WithoutShiftFrom(rest, k, base + 1);
        if base < k < base + |units| {
          ConsSplit(units, k - base);
        } else {
          assert units == [units[0]] + rest;
        }
      }
    }
  }

  /** One step of `Without`, with the tail's numbering shifted by one. */
  lemma WithoutCons(units: seq<UnitRecord>, k: int)
    requires units != []
    ensures Without(units, k) == (if units[0].slot != k then [units[0]] else []) + Without(units[1..], k)
  {
  }

  /** A sequence cut at three points is the join of its four parts. */
  lemma SliceJoin4<T>(s: seq<T>, a: nat, b: nat, c: nat)
    requires a <= b <= c <= |s|
    ensures s == s[..a] + s[a..b] + s[b..c] + s[c..]
  {
  }

  /** Deleting an element of a non-empty list past its head keeps the head. */
  lemma ConsSplit<T>(s: seq<T>, d: int)
    requires 1 <= d < |s|
    ensures s[..d] + s[d + 1..] == [s[0]] + (s[1..][..d - 1] + s[1..][d..])
  {
  }

  // ---------------------------------------------------------------------------
  // The table object

  /** `UnitTable`: the units of one pointer entry, which `sync_to_pointer` overwrites. */
  class UnitTable {
    var kind: string
    var pointerEntry: PointerEntry
    var units: seq<UnitRecord>
    var maxSlots: nat

    constructor (kind: string, pointerEntry: PointerEntry, units: seq<UnitRecord>, maxSlots: nat)
      ensures this.kind == kind && this.pointerEntry == pointerEntry
      ensures this.units == units && this.maxSlots == maxSlots
    {
      this.kind := kind;
      this.pointerEntry := pointerEntry;
      this.units := units;
      this.maxSlots := maxSlots;
    }

    /** `rebuild_chunk`: one frame per slot, joined. */
    method RebuildChunk() returns (r: Result<seq<byte>>)
      ensures r == Rebuild(units, maxSlots)
    {
      var chunks: seq<byte> := [];
      for idx := 0 to maxSlots
        invariant RebuildFrames(units, idx) == Ok(chunks)
      {
        var chunk;
        if idx < |units| {
          var encoded := Encode(units[idx]);
          if encoded.Err? {
            RebuildErrStays(units, idx + 1, maxSlots);
            return Err(encoded.message);
          }
          chunk := encoded.value;
        } else {
          chunk := Zeros(FrameSize);
        }
        chunks := chunks + chunk;
      }
      return Ok(chunks);
    }

    /** `sync_to_pointer`: write the rebuilt chunk over the entry's data; a ValueError when
        it has another size, leaving the data as it was. */
    method SyncToPointer() returns (err: Option<string>)
      modifies pointerEntry
      ensures var rebuilt := Rebuild(units, maxSlots);
              err == (if rebuilt.Err? then Some(rebuilt.message)
                      else if |rebuilt.value| != |old(pointerEntry.data)| then Some(SizeMismatch)
                      else None)
              && pointerEntry.data == (if err.None? then rebuilt.value else old(pointerEntry.data))
      ensures pointerEntry.index == old(pointerEntry.index) && pointerEntry.start == old(pointerEntry.start)
      ensures pointerEntry.count == old(pointerEntry.count) && pointerEntry.length == old(pointerEntry.length)
    {
      var encoded := RebuildChunk();
      if encoded.Err? {
        return Some(encoded.message);
      }
      if |encoded.value| != |pointerEntry.data| {
        return Some(SizeMismatch);
      }
      pointerEntry.data := encoded.value;
      return None;
    }

    /** `add_unit`: a ValueError when every slot is taken; otherwise the unit is appended
        in the next slot. */
    method AddUnit(unit: UnitRecord) returns (err: Option<string>)
      modifies this
      ensures err.Some? <==> |old(units)| >= maxSlots
      ensures units == if err.Some? then old(units) else Added(old(units), unit)
      ensures kind == old(kind) && pointerEntry == old(pointerEntry) && maxSlots == old(maxSlots)
    {
      if |units| >= maxSlots {
        return Some(NoFreeSlots);
      }
      var added := unit.(slot := |units|);
      added := added.(rawWords := if added.rawWords == [] then Zeros(FrameWords) else added.rawWords);
      units := units + [added];
      return None;
    }

    /** `remove_unit`: drop the units in that slot, then number the rest 0..n-1. */
    method RemoveUnit(slot: int)
      modifies this
      ensures units == Renumbered(Without(old(units), slot))
      ensures kind == old(kind) && pointerEntry == old(pointerEntry) && maxSlots == old(maxSlots)
    {
      units := Without(units, slot);
      ghost var kept := units;
      for idx := 0 to |units|
        invariant kind == old(kind) && pointerEntry == old(pointerEntry) && maxSlots == old(maxSlots)
        invariant |units| == |kept|
        invariant forall i :: 0 <= i < idx ==> units[i] == kept[i].(slot := i)
        invariant forall i :: idx <= i < |units| ==> units[i] == kept[i]
      {
        units := units[idx := units[idx].(slot := idx)];
      }
    }
  }

  /** After `add_unit` the table grows by one unit in the next slot, and, when the table
      was numbered 0..n-1, it still is. */
  lemma AddedSpec(units: seq<UnitRecord>, unit: UnitRecord)
    ensures var r := Added(units, unit);
            |r| == |units| + 1 && r[..|units|] == units && r[|units|].slot == |units|
            && |r[|units|].rawWords| > 0
            && ((forall i :: 0 <= i < |units| ==> units[i].slot == i) ==> forall i :: 0 <= i < |r| ==> r[i].slot == i)
  {
  }
}
