/** The objective-script editing done by the scenario editor (scenario_editor.py): the
    encoder that writes an edited script back into a record's trailing bytes, the three
    list edits behind the "apply", "add" and "remove" buttons, the trailing-byte word view,
    the region-code substitution and the side/colour tagging of the script table. */
module ScriptEditor {
  import opened Bytes
  import opened Objectives
  import opened Scenario

  // ---------------------------------------------------------------------------
  // Encoding a script back into the trailing bytes

  /** The words a script is stored as, one `(opcode << 8) | operand` per pair. */
  function ScriptWords(script: seq<Pair>): (ws: seq<u16>)
    ensures |ws| == |script|
  {
    seq(|script|, i requires 0 <= i < |script| => PairWord(script[i]))
  }

  /** The part of the trailing bytes kept by the encoder: everything before the located
      script bytes, or all of it when no script bytes are found. */
  function MetadataPortion(trailing: seq<byte>): (r: seq<byte>)
    ensures |r| <= |trailing| && r == trailing[..|r|]
  {
    var script := ScriptBytes(trailing);
    if script != [] then trailing[..|trailing| - |script|] else trailing
  }

  /** `_encode_objective_script`: the kept metadata followed by the packed script words. */
  function EncodeScript(original: seq<byte>, script: seq<Pair>): seq<byte>
  {
    MetadataPortion(original) + PackWords(ScriptWords(script))
  }

  /** The encoding is the kept prefix (every byte before the script start, or the whole
      original when it has no script bytes) followed by one little-endian word per pair:
      two bytes per pair, operand first. */
  lemma EncodeScriptLayout(original: seq<byte>, script: seq<Pair>)
    ensures var r := EncodeScript(original, script);
            var keep := MetadataPortion(original);
            |r| == |keep| + 2 * |script| && r[..|keep|] == keep
            && (ScriptBytes(original) == [] ==> keep == original)
            && (ScriptBytes(original) != [] ==>
                  LocateScriptStart(original) == Some(|keep|) && keep == original[..|keep|])
            && forall i :: 0 <= i < |script| ==>
                 r[|keep| + 2 * i] == script[i].1 && r[|keep| + 2 * i + 1] == script[i].0
  {
    MetadataPortionStart(original);
    PackedPairs(MetadataPortion(original), script);
  }

  /** The kept prefix ends where the located script starts. */
  lemma MetadataPortionStart(original: seq<byte>)
    ensures var keep := MetadataPortion(original);
            (ScriptBytes(original) == [] ==> keep == original)
            && (ScriptBytes(original) != [] ==>
                  LocateScriptStart(original) == Some(|keep|) && keep == original[..|keep|])
  {
  }

  /** After any prefix, the packed words of a script hold each pair as operand then opcode. */
  lemma PackedPairs(keep: seq<byte>, script: seq<Pair>)
    ensures var r := keep + PackWords(ScriptWords(script));
            |r| == |keep| + 2 * |script| && r[..|keep|] == keep
            && forall i :: 0 <= i < |script| ==>
                 r[|keep| + 2 * i] == script[i].1 && r[|keep| + 2 * i + 1] == script[i].0
  {
    forall i | 0 <= i < |script|
      ensures var r := keep + PackWords(ScriptWords(script));
              r[|keep| + 2 * i] == script[i].1 && r[|keep| + 2 * i + 1] == script[i].0
    {
      PackedPair(keep, script, i);
    }
  }

  lemma PackedPair(keep: seq<byte>, script: seq<Pair>, i: nat)
    requires i < |script|
    ensures var r := keep + PackWords(ScriptWords(script));
            r[|keep| + 2 * i] == script[i].1 && r[|keep| + 2 * i + 1] == script[i].0
  {
    var packed := PackWords(ScriptWords(script));
    PackWordsAt(ScriptWords(script), i);
    WordOfBytes(packed[2 * i], packed[2 * i + 1]);
    SplitPairWord(script[i]);
  }

  /** The difficulty tokens that occur in a byte string. */
  predicate NoDifficultyToken(s: seq<byte>)
  {
    forall k :: 0 <= k < |DifficultyTokens| ==> !Contains(s, DifficultyTokens[k])
  }

  /** When re-parsing an encoded script gives it back: the original script start came from
      a difficulty token, the script fits the 64-word cap with no two adjacent (0, 0) pairs,
      and its words spell no difficulty token. */
  ghost predicate Reparseable(original: seq<byte>, script: seq<Pair>)
  {
    TokenStart(original).Some? && |script| <= MaxScriptWords && NoAdjacentZeros(script)
    && NoDifficultyToken(PackWords(ScriptWords(script)))
  }

  /** An occurrence inside `p + w` either lies wholly in `p` or, when it starts at or after
      `p`, is an occurrence in `w`. */
  lemma OccurrenceParts(p: seq<byte>, w: seq<byte>, t: seq<byte>, i: nat)
    ensures IsAt(p + w, t, i) && i + |t| <= |p| ==> IsAt(p, t, i)
    ensures IsAt(p + w, t, i) && i >= |p| ==> IsAt(w, t, i - |p|)
    ensures IsAt(p, t, i) ==> IsAt(p + w, t, i)
  {
    if IsAt(p + w, t, i) && i + |t| <= |p| {
      assert (p + w)[i..i + |t|] == p[i..i + |t|];
    }
    if IsAt(p + w, t, i) && i >= |p| {
      assert (p + w)[i..i + |t|] == w[i - |p|..i - |p| + |t|];
    }
    if IsAt(p, t, i) {
      assert (p + w)[i..i + |t|] == p[i..i + |t|];
    }
  }

  /** A byte of an occurrence is the token's byte. */
  lemma OccurrenceByte(s: seq<byte>, t: seq<byte>, i: nat, j: nat)
    ensures IsAt(s, t, i) && i <= j < i + |t| ==> s[j] == t[j - i]
  {
    if IsAt(s, t, i) && i <= j < i + |t| {
      assert s[i..i + |t|][j - i] == s[j];
    }
  }

  /** In `p + w` with `p` ending in a NUL and `w` free of a NUL-terminated token, every
      occurrence of the token lies wholly inside `p` and is an occurrence in `p`. */
  lemma OccurrenceInPrefix(p: seq<byte>, w: seq<byte>, t: seq<byte>, i: nat)
    requires WellFormedToken(t) && |p| > 0 && p[|p| - 1] == 0 && !Contains(w, t)
    requires IsAt(p + w, t, i)
    ensures i + |t| <= |p| && IsAt(p, t, i)
  {
    OccurrenceParts(p, w, t, i);
    OccurrenceByte(p + w, t, i, |p| - 1);
  }

  /** Appending token-free words after a NUL-terminated prefix leaves the first token present
      and its last occurrence where they were. */
  lemma TokenStartAfterAppend(p: seq<byte>, w: seq<byte>)
    requires TokenStart(p).Some? && TokenStart(p).value == |p| && NoDifficultyToken(w)
    ensures TokenStart(p + w) == TokenStart(p)
  {
    DifficultyTokensWellFormed();
    var k := FirstPresent(p, DifficultyTokens).value;
    var t := DifficultyTokens[k];
    var q := RFind(p, t).value;
    TokenEndsInNul(p, t, q);
    AppendOccurrences(p, w);
    OccurrenceParts(p, w, t, q);
    SameFirstPresent(p, p + w, DifficultyTokens);
    SameLastOccurrence(p, p + w, t, q);
  }

  /** After a prefix ending in NUL, token-free words add no token occurrence. */
  lemma AppendOccurrences(p: seq<byte>, w: seq<byte>)
    requires |p| > 0 && p[|p| - 1] == 0 && NoDifficultyToken(w)
    ensures forall j, i :: 0 <= j < |DifficultyTokens| && IsAt(p + w, DifficultyTokens[j], i) ==>
              IsAt(p, DifficultyTokens[j], i)
  {
    DifficultyTokensWellFormed();
    forall j, i | 0 <= j < |DifficultyTokens| && IsAt(p + w, DifficultyTokens[j], i)
      ensures IsAt(p, DifficultyTokens[j], i)
    {
      OccurrenceInPrefix(p, w, DifficultyTokens[j], i);
    }
  }

  /** The last byte of the blob's last occurrence of a token ending in NUL is a NUL. */
  lemma TokenEndsInNul(blob: seq<byte>, t: seq<byte>, q: nat)
    requires WellFormedToken(t) && IsAt(blob, t, q)
    ensures blob[q + |t| - 1] == 0
  {
    assert blob[q..q + |t|][|t| - 1] == t[|t| - 1];
  }

  /** A blob that holds the first present token of `b1` and no earlier token that `b1`
      lacks has the same first present token. */
  lemma SameFirstPresent(b1: seq<byte>, b2: seq<byte>, tokens: seq<seq<byte>>)
    requires forall k :: 0 <= k < |tokens| ==> |tokens[k]| > 0
    requires FirstPresent(b1, tokens).Some?
    requires Contains(b2, tokens[FirstPresent(b1, tokens).value])
    requires forall j, i :: 0 <= j < |tokens| && IsAt(b2, tokens[j], i) ==> IsAt(b1, tokens[j], i)
    ensures FirstPresent(b2, tokens) == FirstPresent(b1, tokens)
  {
    var k2 := FirstPresent(b2, tokens).value;
    var i2 :| 0 <= i2 <= |b2| && IsAt(b2, tokens[k2], i2);
    assert Contains(b1, tokens[k2]);
  }

  /** A blob that has an occurrence at `q` and, after `q`, only occurrences `b1` also has,
      has its last occurrence where `b1` has it. */
  lemma SameLastOccurrence(b1: seq<byte>, b2: seq<byte>, t: seq<byte>, q: nat)
    requires |t| > 0 && RFind(b1, t) == Some(q) && IsAt(b2, t, q)
    requires forall i :: q < i && IsAt(b2, t, i) ==> IsAt(b1, t, i)
    ensures RFind(b2, t) == Some(q)
  {
  }

  /** The script bytes found in an encoded blob are the packed words. */
  lemma EncodedScriptBytes(original: seq<byte>, script: seq<Pair>)
    requires Reparseable(original, script)
    ensures ScriptBytes(EncodeScript(original, script)) == PackWords(ScriptWords(script))
  {
    var s := TokenStart(original).value;
    LocateScriptStartBounds(original);
    var keep := MetadataPortion(original);
    assert LocateScriptStart(original) == Some(s);
    assert keep == original[..s];
    var w := PackWords(ScriptWords(script));
    TokenStartPrefix(original, s);
    TokenStartAfterAppend(keep, w);
    LocateScriptStartBounds(keep);
    assert keep + w != [];
  }

  /** Cutting a blob right after its token start keeps that token start. */
  lemma TokenStartPrefix(blob: seq<byte>, s: nat)
    requires TokenStart(blob) == Some(s)
    ensures s <= |blob| && TokenStart(blob[..s]) == Some(s)
  {
    DifficultyTokensWellFormed();
    var p := blob[..s];
    var k := FirstPresent(blob, DifficultyTokens).value;
    var t := DifficultyTokens[k];
    var q := RFind(blob, t).value;
    PrefixOccurrence(blob, s, t, q);
    forall j, i | 0 <= j < |DifficultyTokens| && IsAt(p, DifficultyTokens[j], i)
      ensures IsAt(blob, DifficultyTokens[j], i)
    {
      PrefixOccurrence(blob, s, DifficultyTokens[j], i);
    }
    SameFirstPresent(blob, p, DifficultyTokens);
    SameLastOccurrence(blob, p, t, q);
  }

  /** Occurrences in a prefix are occurrences in the whole, and an occurrence that ends
      within the prefix is one in the prefix. */
  lemma PrefixOccurrence(blob: seq<byte>, s: nat, t: seq<byte>, i: nat)
    requires s <= |blob|
    ensures IsAt(blob[..s], t, i) ==> IsAt(blob, t, i)
    ensures IsAt(blob, t, i) && i + |t| <= s ==> IsAt(blob[..s], t, i)
  {
    if i + |t| <= s {
      assert blob[..s][i..i + |t|] == blob[i..i + |t|];
    }
  }

  /** Only the (0, 0) pair is stored as the zero word. */
  lemma PairWordZero(p: Pair)
    ensures PairWord(p) == 0 <==> p == ZeroPair
  {
  }

  /** Packed words with no two adjacent (0, 0) pairs decode back to the pairs. */
  lemma DecodePackedScript(script: seq<Pair>)
    requires |script| <= MaxScriptWords && NoAdjacentZeros(script)
    ensures DecodeScriptData(PackWords(ScriptWords(script))) == script
  {
    var ws := ScriptWords(script);
    var w := PackWords(ws);
    assert Window(w) == w;
    UnpackPackWords(ws);
    forall i, j | 0 <= i < j < |ws| && j == i + 1 ensures !(ws[i] == 0 && ws[j] == 0) {
      PairWordZero(script[i]);
      PairWordZero(script[j]);
      assert !(script[i] == ZeroPair && script[j] == ZeroPair);
    }
    ScanWordsAll(ws, false);
    forall i | 0 <= i < |script| ensures SplitWord(ws[i]) == script[i] {
      SplitPairWord(script[i]);
    }
  }

  /** Re-parsing what the encoder wrote gives the edited script back. */
  lemma EncodeScriptRoundTrip(original: seq<byte>, script: seq<Pair>)
    requires Reparseable(original, script)
    ensures ParseScript(EncodeScript(original, script)) == script
  {
    EncodedScriptBytes(original, script);
    DecodePackedScript(script);
  }

  // ---------------------------------------------------------------------------
  // The three script edits

  /** Why an edit leaves the record alone. */
  datatype Refusal = NoSelection | OpcodeOutOfRange | IndexOutOfRange | EmptyScript

  /** The new trailing bytes, or the reason nothing changes. */
  datatype Edit = Edited(bytes: seq<byte>) | Refused(reason: Refusal)

  /** `apply_win_word`: with an index selected and an opcode in 0..255, replace that pair of
      the parsed script with (opcode, operand & 0xFF) and re-encode. */
  function ApplyWord(trailing: seq<byte>, index: Option<nat>, opcode: int, operand: int): Edit
  {
    if index.None? then Refused(NoSelection)
    else if opcode < 0 || opcode > 0xFF then Refused(OpcodeOutOfRange)
    else
      var script := ParseScript(trailing);
      if index.value >= |script| then Refused(IndexOutOfRange)
      else Edited(EncodeScript(trailing, script[index.value := (opcode, operand % 0x100)]))
  }

  /** An applied edit re-parses to the old script with only the selected pair replaced, the
      operand masked to its low byte. */
  lemma ApplyWordEffect(trailing: seq<byte>, index: nat, opcode: int, operand: int)
    requires 0 <= opcode <= 0xFF && index < |ParseScript(trailing)|
    requires Reparseable(trailing, ParseScript(trailing)[index := (opcode, operand % 0x100)])
    ensures var r := ApplyWord(trailing, Some(index), opcode, operand);
            r.Edited? && ParseScript(r.bytes) == ParseScript(trailing)[index := (opcode, operand % 0x100)]
  {
    var edited := ParseScript(trailing)[index := (opcode, operand % 0x100)];
    ApplyWordEdits(trailing, index, opcode, operand);
    EncodeScriptRoundTrip(trailing, edited);
  }

  /** A selected index in range and an opcode in 0..255 produce the encoding of the script
      with that pair replaced. */
  lemma ApplyWordEdits(trailing: seq<byte>, index: nat, opcode: int, operand: int)
    requires 0 <= opcode <= 0xFF && index < |ParseScript(trailing)|
    ensures ApplyWord(trailing, Some(index), opcode, operand)
            == Edited(EncodeScript(trailing, ParseScript(trailing)[index := (opcode, operand % 0x100)]))
  {
  }

  /** `apply_win_word` refuses exactly a missing selection, an opcode outside 0..255 or an
      index past the script's end. */
  lemma ApplyWordRefusals(trailing: seq<byte>, index: Option<nat>, opcode: int, operand: int)
    ensures ApplyWord(trailing, index, opcode, operand).Refused? <==>
              index.None? || opcode < 0 || opcode > 0xFF || index.value >= |ParseScript(trailing)|
  {
  }

  /** `add_win_word`: append PLAYER_SECTION(0), (0x01, 0x00), and re-encode. */
  function AddWord(trailing: seq<byte>): seq<byte>
  {
    EncodeScript(trailing, ParseScript(trailing) + [(0x01, 0x00)])
  }

  /** The appended pair re-parses as the new last pair after the old ones. */
  lemma AddWordEffect(trailing: seq<byte>)
    requires Reparseable(trailing, ParseScript(trailing) + [(0x01, 0x00)])
    ensures ParseScript(AddWord(trailing)) == ParseScript(trailing) + [(0x01, 0x00)]
    ensures |AddWord(trailing)| == |MetadataPortion(trailing)| + 2 * (|ParseScript(trailing)| + 1)
  {
    EncodeScriptRoundTrip(trailing, ParseScript(trailing) + [(0x01, 0x00)]);
    EncodeScriptLayout(trailing, ParseScript(trailing) + [(0x01, 0x00)]);
  }

  /** The script with the selected pair deleted, or the last one without a selection. */
  function RemovePair(script: seq<Pair>, index: Option<nat>): (r: seq<Pair>)
    requires script != []
    requires index.Some? ==> index.value < |script|
    ensures var gone := if index.Some? then index.value else |script| - 1;
            |r| == |script| - 1
            && (forall i :: 0 <= i < gone ==> r[i] == script[i])
            && (forall i :: gone < i < |script| ==> r[i - 1] == script[i])
  {
    if index.None? then script[..|script| - 1] else script[..index.value] + script[index.value + 1..]
  }

  /** `remove_win_word`: delete a pair and re-encode; when nothing is left, cut the trailing
      bytes at the script start instead. */
  function RemoveWord(trailing: seq<byte>, index: Option<nat>): Edit
  {
    var script := ParseScript(trailing);
    if index.None? && script == [] then Refused(EmptyScript)
    else if index.Some? && index.value >= |script| then Refused(IndexOutOfRange)
    else
      var rest := RemovePair(script, index);
      if rest != [] then Edited(EncodeScript(trailing, rest))
      else
        var scriptBytes := ScriptBytes(trailing);
        if scriptBytes != [] then Edited(trailing[..|trailing| - |scriptBytes|])
        else Edited(trailing)
  }

  /** The special case for an emptied script writes what the encoder would have written for
      the empty script, so every removal is the encoder applied to the shortened script. */
  lemma RemoveWordIsEncode(trailing: seq<byte>, index: Option<nat>)
    ensures var script := ParseScript(trailing);
            RemoveWord(trailing, index).Edited? <==>
              script != [] && (index.Some? ==> index.value < |script|)
    ensures var script := ParseScript(trailing);
            RemoveWord(trailing, index).Edited? ==>
              RemoveWord(trailing, index).bytes == EncodeScript(trailing, RemovePair(script, index))
  {
    var script := ParseScript(trailing);
    if RemoveWord(trailing, index).Edited? && RemovePair(script, index) == [] {
      assert PackWords(ScriptWords([])) == [];
      assert EncodeScript(trailing, []) == MetadataPortion(trailing);
    }
  }

  /** A removal re-parses to the old script without the removed pair, the others in order. */
  lemma RemoveWordEffect(trailing: seq<byte>, index: Option<nat>)
    requires ParseScript(trailing) != []
    requires index.Some? ==> index.value < |ParseScript(trailing)|
    requires Reparseable(trailing, RemovePair(ParseScript(trailing), index))
    ensures var r := RemoveWord(trailing, index);
            r.Edited? && ParseScript(r.bytes) == RemovePair(ParseScript(trailing), index)
  {
    RemoveWordIsEncode(trailing, index);
    EncodeScriptRoundTrip(trailing, RemovePair(ParseScript(trailing), index));
  }

  /** `apply_win_word` on the current record: only `trailing_bytes` may change. */
  method ApplyWinWord(record: ScenarioRecord, index: Option<nat>, opcode: int, operand: int)
      returns (outcome: Edit)
    modifies record
    ensures outcome == ApplyWord(old(record.trailingBytes), index, opcode, operand)
    ensures record.Value() == old(record.Value()).(trailing :=
              if outcome.Edited? then outcome.bytes else old(record.trailingBytes))
  {
    if index.None? {
      return Refused(NoSelection);
    }
    if opcode < 0 || opcode > 0xFF {
      return Refused(OpcodeOutOfRange);
    }
    var masked := operand % 0x100;
    var script := ParseScript(record.trailingBytes);
    if index.value >= |script| {
      return Refused(IndexOutOfRange);
    }
    script := script[index.value := (opcode, masked)];
    record.trailingBytes := EncodeScript(record.trailingBytes, script);
    return Edited(record.trailingBytes);
  }

  /** `add_win_word` on the current record. */
  method AddWinWord(record: ScenarioRecord)
    modifies record
    ensures record.Value() == old(record.Value()).(trailing := AddWord(old(record.trailingBytes)))
  {
    record.trailingBytes := AddWord(record.trailingBytes);
  }

  /** `remove_win_word` on the current record. */
  method RemoveWinWord(record: ScenarioRecord, index: Option<nat>) returns (outcome: Edit)
    modifies record
    ensures outcome == RemoveWord(old(record.trailingBytes), index)
    ensures record.Value() == old(record.Value()).(trailing :=
              if outcome.Edited? then outcome.bytes else old(record.trailingBytes))
  {
    outcome := RemoveWord(record.trailingBytes, index);
    if outcome.Edited? {
      record.trailingBytes := outcome.bytes;
    }
  }

  // ---------------------------------------------------------------------------
  // The trailing bytes as words

  /** `_trailing_words`: the bytes one by one when their count is odd, otherwise the
      little-endian words. */
  function TrailingWords(trailing: seq<byte>): seq<nat>
  {
    if |trailing| % 2 != 0 then seq(|trailing|, i requires 0 <= i < |trailing| => trailing[i] as nat)
    else if trailing == [] then []
    else
      var ws := UnpackWords(trailing);
      seq(|ws|, i requires 0 <= i < |ws| => ws[i] as nat)
  }

  /** Odd-length bytes come back one value per byte; even-length bytes give one word per
      two bytes, each below 0x10000, and packing the words restores the bytes. */
  lemma TrailingWordsSpec(trailing: seq<byte>)
    ensures var r := TrailingWords(trailing);
            |trailing| % 2 != 0 ==> |r| == |trailing| && forall i :: 0 <= i < |r| ==> r[i] == trailing[i]
    ensures var r := TrailingWords(trailing);
            |trailing| % 2 == 0 ==>
              |r| == |trailing| / 2 && (forall i :: 0 <= i < |r| ==> r[i] < 0x1_0000)
              && PackWords(seq(|r|, i requires 0 <= i < |r| => r[i] as u16)) == trailing
  {
    if |trailing| % 2 == 0 {
      var r := TrailingWords(trailing);
      var ws := UnpackWords(trailing);
      assert seq(|r|, i requires 0 <= i < |r| => r[i] as u16) == ws;
      PackUnpackWords(trailing);
    }
  }

  // ---------------------------------------------------------------------------
  // Region code substitution

  const RegionPrefix: seq<byte> := [114, 112]  // "rp"

  /** `re_sub_region_code`: replace the two characters after the first "rp" with the
      upper-cased code, or give "rp" and the code when the text has no "rp". */
  function ReSubRegionCode(text: seq<byte>, code: seq<byte>): seq<byte>
  {
    match Find(text, RegionPrefix, 0)
    case Some(start) => text[..start + 2] + Upper(code) + From(text, start + 4)
    case None => RegionPrefix + Upper(code)
  }

  /** The result keeps the text up to and including the first "rp", follows it with the
      upper-cased code and then the text after the two replaced characters; the first "rp"
      of the result is where it was. */
  lemma ReSubRegionCodeSpec(text: seq<byte>, code: seq<byte>)
    ensures var r := ReSubRegionCode(text, code);
            match Find(text, RegionPrefix, 0)
            case Some(start) =>
              r[..start + 2] == text[..start + 2] && r[start + 2..start + 2 + |code|] == Upper(code)
              && r[start + 2 + |code|..] == From(text, start + 4)
              && Find(r, RegionPrefix, 0) == Some(start)
            case None => r == RegionPrefix + Upper(code) && Find(r, RegionPrefix, 0) == Some(0)
  {
    var r := ReSubRegionCode(text, code);
    match Find(text, RegionPrefix, 0)
    case Some(start) =>
      assert IsAt(r, RegionPrefix, start) by {
        assert r[start..start + 2] == text[start..start + 2];
      }
      forall j: nat | j < start ensures !IsAt(r, RegionPrefix, j) {
        assert !IsAt(text, RegionPrefix, j);
        assert r[j..j + 2] == text[j..j + 2];
      }
    case None =>
      assert IsAt(r, RegionPrefix, 0);
  }

  /** Substituting the same two-character code twice is the same as once. */
  lemma ReSubRegionCodeIdempotent(text: seq<byte>, code: seq<byte>)
    requires |code| == 2
    ensures ReSubRegionCode(ReSubRegionCode(text, code), code) == ReSubRegionCode(text, code)
  {
    ReSubRegionCodeSpec(text, code);
    var r := ReSubRegionCode(text, code);
    var start := Find(r, RegionPrefix, 0).value;
    assert r == r[..start + 2] + Upper(code) + From(r, start + 4);
  }

  // ---------------------------------------------------------------------------
  // Row tags of the script table

  /** Whose objectives a row belongs to while the table is filled. */
  datatype Side = Unset | Neutral | Green | Red | Campaign

  /** The colour tag a row gets. */
  datatype RowTag =
    | NoTag | GreenHeader | RedHeader | CampaignHeader
    | GreenRow | RedRow | CampaignRow | NeutralRow

  const PlayerSection: byte := 0x01
  const GreenMarker: Pair := (0x01, 0x0d)
  const RedMarker: Pair := (0x01, 0x00)
  const CampaignMarker: Pair := (0x01, 0xc0)

  /** The side before the first row: Campaign when a campaign marker is present, unset when a
      green or red marker is, Neutral otherwise. */
  function InitialSide(script: seq<Pair>): Side
  {
    if CampaignMarker in script then Campaign
    else if GreenMarker in script || RedMarker in script then Unset
    else Neutral
  }

  /** The index of the first opcode-0x00 pair at or after `from`. */
  function FirstEnd(script: seq<Pair>, from: nat): (r: Option<nat>)
    ensures r.Some? ==> from <= r.value < |script| && script[r.value].0 == 0
    ensures r.Some? ==> forall j :: from <= j < r.value ==> script[j].0 != 0
    ensures r.None? ==> forall j :: from <= j < |script| ==> script[j].0 != 0
    decreases |script| - from
  {
    if from >= |script| then None
    else if script[from].0 == 0 then Some(from)
    else FirstEnd(script, from + 1)
  }

  /** `end_zero_index`: the first END pair, only when some pair follows it. */
  function EndZeroIndex(script: seq<Pair>): Option<nat>
  {
    match FirstEnd(script, 0)
    case None => None
    case Some(i) => if i + 1 < |script| then Some(i) else None
  }

  /** The row tag a side gives to an ordinary row. */
  function SideRow(side: Side): RowTag
  {
    match side
    case Unset => NoTag
    case Neutral => NeutralRow
    case Green => GreenRow
    case Red => RedRow
    case Campaign => CampaignRow
  }

  /** One row: a PLAYER_SECTION marker sets the side and gets its header tag (other
      operands get none); the separating END row gets no tag and turns Green into Red when
      there is no explicit red marker; any other row gets the current side's tag. */
  function Step(p: Pair, atEndZero: bool, hasRed: bool, side: Side): (Side, RowTag)
  {
    if p.0 == PlayerSection then
      if p.1 == 0x0d then (Green, GreenHeader)
      else if p.1 == 0x00 then (Red, RedHeader)
      else if p.1 == 0xc0 then (Campaign, CampaignHeader)
      else (side, NoTag)
    else if p.0 == 0x00 && atEndZero then
      (if !hasRed && side == Green then Red else side, NoTag)
    else (side, SideRow(side))
  }

  /** The side in force when row `i` is reached. */
  function SideBefore(script: seq<Pair>, i: nat): Side
    requires i <= |script|
  {
    if i == 0 then InitialSide(script)
    else Step(script[i - 1], EndZeroIndex(script) == Some(i - 1), RedMarker in script,
              SideBefore(script, i - 1)).0
  }

  /** The tag of row `i`. */
  function TagAt(script: seq<Pair>, i: nat): RowTag
    requires i < |script|
  {
    Step(script[i], EndZeroIndex(script) == Some(i), RedMarker in script, SideBefore(script, i)).1
  }

  /** Header tags go exactly to the three PLAYER_SECTION markers, each with its colour. */
  lemma HeaderTags(script: seq<Pair>, i: nat)
    requires i < |script|
    ensures TagAt(script, i) == GreenHeader <==> script[i] == GreenMarker
    ensures TagAt(script, i) == RedHeader <==> script[i] == RedMarker
    ensures TagAt(script, i) == CampaignHeader <==> script[i] == CampaignMarker
    ensures script[i].0 == PlayerSection ==> TagAt(script, i) in {NoTag, GreenHeader, RedHeader, CampaignHeader}
  {
    var p := script[i];
    if p.0 != PlayerSection {
      assert SideRow(SideBefore(script, i)) !in {GreenHeader, RedHeader, CampaignHeader};
    }
  }

  /** Without green or red markers the side never changes: Campaign throughout when a
      campaign marker is present, Neutral throughout otherwise. */
  lemma {:induction false} SideWithoutPlayerMarkers(script: seq<Pair>, i: nat)
    requires i <= |script| && GreenMarker !in script && RedMarker !in script
    ensures SideBefore(script, i) == (if CampaignMarker in script then Campaign else Neutral)
  {
    if i > 0 {
      SideWithoutPlayerMarkers(script, i - 1);
      assert script[i - 1] in script;
    }
  }

  /** Before the first PLAYER_SECTION marker of a script with green or red markers and no
      campaign marker, the side is unset and rows get no tag. */
  lemma {:induction false} UnsetBeforeMarkers(script: seq<Pair>, i: nat)
    requires i <= |script| && CampaignMarker !in script
    requires GreenMarker in script || RedMarker in script
    requires forall j :: 0 <= j < i ==> script[j] !in {GreenMarker, RedMarker, CampaignMarker}
    ensures SideBefore(script, i) == Unset
    ensures i < |script| && script[i] !in {GreenMarker, RedMarker, CampaignMarker} ==>
              TagAt(script, i) == NoTag
  {
    if i > 0 {
      UnsetBeforeMarkers(script, i - 1);
    }
  }

  /** The separating END row ends the green section: with Green in force and no explicit red
      marker, the rows after it are red. */
  lemma EndZeroTurnsRed(script: seq<Pair>, e: nat)
    requires EndZeroIndex(script) == Some(e) && RedMarker !in script
    requires SideBefore(script, e) == Green
    ensures e + 1 < |script| && TagAt(script, e) == NoTag && SideBefore(script, e + 1) == Red
  {
    assert script[e].0 == 0;
  }

  /** The row tags of a whole script. */
  function RowTagsOf(script: seq<Pair>): (r: seq<RowTag>)
    ensures |r| == |script|
  {
    seq(|script|, i requires 0 <= i < |script| => TagAt(script, i))
  }

  /** The pre-scan for `end_zero_index`: the first END pair, if a pair follows it. */
  method FindEndZero(script: seq<Pair>) returns (endZero: Option<nat>)
    ensures endZero == EndZeroIndex(script)
  {
    endZero := None;
    var idx := 0;
    while idx < |script|
      invariant idx <= |script|
      invariant FirstEnd(script, 0) == FirstEnd(script, idx)
      invariant endZero == None
    {
      if script[idx].0 == 0x00 {
        if idx + 1 < |script| {
          endZero := Some(idx);
        }
        return;
      }
      idx := idx + 1;
    }
  }

  /** The tagging loop of `refresh_win_table`: the three marker scans, the END pre-scan,
      then one pass that tags each row and updates the side in force. */
  method RowTags(script: seq<Pair>) returns (tags: seq<RowTag>)
    ensures tags == RowTagsOf(script)
  {
    var endZero := FindEndZero(script);
    var hasRed := RedMarker in script;
    var hasGreen := GreenMarker in script;
    var hasCampaign := CampaignMarker in script;
    var side: Side;
    if hasCampaign {
      side := Campaign;
    } else if hasGreen || hasRed {
      side := Unset;
    } else {
      side := Neutral;
    }
    tags := [];
    for idx := 0 to |script|
      invariant side == SideBefore(script, idx)
      invariant tags == RowTagsOf(script)[..idx]
    {
      ghost var next := Step(script[idx], endZero == Some(idx), hasRed, side);
      RowTagsStep(script, idx);
      var opcode := script[idx].0;
      var operand := script[idx].1;
      var tag := NoTag;
      if opcode == PlayerSection {
        if operand == 0x0d {
          side := Green;
          tag := GreenHeader;
        } else if operand == 0x00 {
          side := Red;
          tag := RedHeader;
        } else if operand == 0xc0 {
          side := Campaign;
          tag := CampaignHeader;
        }
      } else if opcode == 0x00 && endZero == Some(idx) {
        if !hasRed && side == Green {
          side := Red;
        }
      } else {
        tag := SideRow(side);
      }
      assert (side, tag) == next;
      tags := tags + [tag];
    }
  }

  /** One pass of the tagging loop: the row's tag is appended and the side it leaves in force
      is the side before the next row. */
  lemma RowTagsStep(script: seq<Pair>, idx: nat)
    requires idx < |script|
    ensures var s := Step(script[idx], EndZeroIndex(script) == Some(idx), RedMarker in script,
                          SideBefore(script, idx));
            SideBefore(script, idx + 1) == s.0
            && RowTagsOf(script)[..idx + 1] == RowTagsOf(script)[..idx] + [s.1]
  {
    PrefixSnoc(RowTagsOf(script), idx);
  }
}
