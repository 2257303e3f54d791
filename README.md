# 5th Fleet data formats, in Dafny

A verified model of the byte-level codecs of the 5th Fleet scenario and map editor. 5th Fleet is SSI's naval wargame; its data files were written by a Turbo Pascal program, and the editor and its tools read and write them in Python. Every format is modelled over an in-memory byte sequence. Text stays bytes, because latin-1 maps each byte to exactly one character.

The model covers:

- **Scenario file** (`scenario.dfy`, module `Scenario`): the file is a little-endian record count followed by fixed 5,883-byte scenario blocks. A block holds the forces, objectives and special-notes texts, split on their marker lines, then a run of NUL-terminated metadata strings and an opaque tail. A block without the objectives marker is kept whole as a raw block. `ScenarioRecord` is a class, because the editor edits a record in place.
- **Objective scripts** (`objectives.dfy`, module `Objectives`): a scenario's trailing bytes end with a script of little-endian words, each an (opcode, operand) pair. This module covers where the script starts (after the last difficulty token, or by a backward scan), which bytes it takes up, and how its words decode.
- **Script editing** (`script_editor.dfy`, module `ScriptEditor`): the editor's encoder that writes an edited script back, the apply, add and remove edits, the trailing-byte word view, the region-code substitution, and the side/colour tagging of the script table.
- **Map file** (`region.dfy`, `units.dfy`, `map_file.dfy`, `map_object.dfy`):
  - 65-byte region records: a 33-byte name and field header, then sixteen tail words. `MapRegion` is a class.
  - A sixteen-entry pointer table over a blob. Each entry runs to the next larger start.
  - Unit tables of 32-byte frames in entries 5, 8 and 11. `PointerEntry` and `UnitTable` are classes.
  - `MapFile.load` and `save`, both as functions over values (module `MapFiles`) and as the object-building loops of the `MapFile` class (module `MapObjects`), proved equal.
- **Dump tool** (`dump.dfy`, module `Dump`): the older diagnostic parsers of `tools/dump_5th_fleet.py`, which differ from the editor's in the details stated below.
- **Legacy script decoder** (`legacy_script.dfy`, module `LegacyScript`): the first objective decoder, `decode_objectives.py`.
- **GXL archives** (`gxl.dfy`, module `Gxl`): the directory scan that finds the PCX images in a Genus Microprogramming archive.
- **Counter icons** (`icons.dfy`, module `Icons`): the MICN records of MICONRES.RES, their 4-bit pixels, and the per-side colour rule of `render_image`.
- **Counter sheet** (`counters.dfy`, module `Counters`): the MAINLIB resource table and the 32×32 tile grid of the counter sheet.
- **Shared primitives** (`bytes.dfy`, module `Bytes`): little-endian words and the Python string operations the codecs rely on (`find`, `rfind`, `strip`, `str(n)`, hex formatting), each given the contract Python's documentation states for it.

Where the editor loops or updates an object in place, the model is a method or class proved equal to a function of its inputs. The properties are then proved about that function: round trips, bounds, what stays unchanged, and the error cases.

## Model

| member | source | states |
|---|---|---|
| Bytes.ReadWord | editor/data.py:23-25 | `_read_word` succeeds exactly when two bytes remain at the offset (struct.error otherwise) and returns the offset advanced by 2 (see also tools/dump_5th_fleet.py:31-34) |
| Bytes.ReadWordBytes | editor/data.py:23-25 | the word read has the byte at the offset as its low byte and the next byte as its high byte |
| Bytes.WordOfBytes | editor/data.py:24 | a little-endian word splits back into the low and high bytes it was built from |
| Bytes.WordBytes | editor/data.py:145 | `struct.pack("<H", w)` is two bytes that read back as `w` |
| Bytes.WordBytesAt | editor/data.py:24 | packing a word read from the data gives back the two bytes it was read from |
| Bytes.PackWords | editor/data.py:358 | packing `n` words gives `2n` bytes |
| Bytes.UnpackWords | editor/data.py:614 | unpacking an even-length buffer gives half as many words |
| Bytes.UnpackWordsAt | editor/data.py:614 | word `i` of the unpacked buffer is the little-endian word at byte offset `2i` |
| Bytes.PackWordsAt | editor/data.py:358 | the packed bytes hold word `i` at offset `2i` |
| Bytes.UnpackPackWords | editor/data.py:358 | unpacking packed words gives the words back |
| Bytes.PackUnpackWords | editor/data.py:614 | packing unpacked words gives the bytes back |
| Bytes.ReadCString | editor/data.py:28-32 | `_read_cstring_bytes` returns bytes without a NUL and an offset within the data that moves forward whenever the offset was inside the data (see also tools/dump_5th_fleet.py:37-42) |
| Bytes.ReadCStringSplit | editor/data.py:28-32 | with a NUL at or after the offset, the string followed by that NUL is exactly the data up to the returned offset; without one, the string is the rest of the data and the offset is its length (see also tools/dump_5th_fleet.py:37-42) |
| Bytes.LittleEndianFour | editor/gxl.py:74-75 | `int.from_bytes` of four bytes, little-endian, is the u32 at that offset |
| Bytes.FindIn | editor/gxl.py:38 | `find(pat, start, end)` returns the first occurrence lying wholly inside the window, or none when no occurrence does |
| Bytes.Find | editor/icons.py:111 | `find(pat, start)` returns the first occurrence at or after `start`, or none when there is none |
| Bytes.FindNoneIffAbsent | editor/icons.py:111-113 | a search from 0 fails exactly when the pattern does not occur |
| Bytes.LastMatch | editor/objectives.py:81 | the last occurrence starting below `n`, or none |
| Bytes.RFind | editor/objectives.py:81 | `rfind(pat)` returns the last occurrence, or none when there is none (see also decode_objectives.py:59) |
| Bytes.RFindContains | editor/objectives.py:81-82 | `rfind` finds something exactly when the pattern occurs |
| Bytes.IndexOf | extract_counters.py:42 | `find(b"\x00", idx)` returns the first NUL at or after `idx`, or none |
| Bytes.RStrip | editor/data.py:155 | `rstrip` never lengthens (see also editor/data.py:596) |
| Bytes.RStripSpec | editor/data.py:155 | `rstrip(chars)` keeps a prefix that is empty or ends outside the set, dropping only bytes of the set (see also editor/data.py:596) |
| Bytes.LStrip | editor/gxl.py:61 | the leading-whitespace strip keeps a suffix that is empty or starts with a non-space, dropping only whitespace |
| Bytes.Strip | editor/gxl.py:61 | `strip()` gives text that is empty or starts and ends with a non-space (see also extract_counters.py:50) |
| Bytes.Latin1 | editor/data.py:10 | a latin-1 text literal has one byte per character |
| Bytes.Zeros | editor/data.py:418-420 | `n` zeros, as `b"\x00" * n` and `[0] * n`: exactly `n` items, each zero; the same run serves as zero bytes and as zero words |
| Bytes.Upper | editor/data.py:341 | `upper()` maps each character by itself, keeping the length |
| Bytes.Decimal | decode_objectives.py:95-98 | `str(n)` is a non-empty run of digits |
| Bytes.DecimalRoundTrip | decode_objectives.py:95-98 | the decimal text reads back as the number |
| Bytes.DecimalLength | decode_objectives.py:95 | a number below 10^k is written with at most k digits |
| Bytes.Hex2 | decode_objectives.py:98 | `f"{b:02x}"` is two hex digits whose value is the byte |
| Objectives.DifficultyTokensWellFormed | editor/objectives.py:6-13 | the six difficulty tokens (ELow, EMedium, EHigh, Low, Medium, High, each NUL-terminated text) are non-empty |
| Objectives.FirstPresent | editor/objectives.py:80-83 | the token chosen is the first of the list that occurs in the blob: it occurs and no earlier token does; none is chosen only when no token occurs |
| Objectives.TokenStart | editor/objectives.py:80-83 | a token start exists exactly when some token occurs, and it is the end of the last occurrence of the first token present |
| Objectives.FallbackStart | editor/objectives.py:87-90 | the backward scan returns the position after the highest NUL followed by a byte ≥ 0x20 in the scanned range, and nothing when the range has none |
| Objectives.LocateScriptStartBounds | editor/objectives.py:75-92 | any start found lies in [1, len] and follows a NUL; a fallback start lies above the 200-byte search floor, below the end, points at a printable byte and is the last such position (about `Objectives.LocateScriptStart`) |
| Objectives.ScriptBytes | editor/objectives.py:95-100 | `objective_script_bytes` is always a suffix of the blob |
| Objectives.SplitPairWord | editor/objectives.py:128-129 | splitting the word `(opcode << 8) \| operand` gives (opcode, operand) back |
| Objectives.ScanWords | editor/objectives.py:116-130 | the scan never yields more pairs than words |
| Objectives.ScanWordsPairs | editor/objectives.py:128-130 | each decoded pair is its word split into (high byte, low byte) |
| Objectives.ScanWordsNoAdjacentZeros | editor/objectives.py:119-126 | the scan never yields two adjacent (0, 0) pairs |
| Objectives.ScanWordsStop | editor/objectives.py:121-124 | the scan stops early only at a zero word that follows another zero word |
| Objectives.ScanWordsAll | editor/objectives.py:116-130 | words with no two adjacent zeros are all decoded |
| Objectives.Window | editor/objectives.py:106-115 | the words read are a prefix of the script bytes of even length, at most 64 words long |
| Objectives.WindowWordAt | editor/objectives.py:117 | a word of that prefix is the word at the same offset of the script bytes |
| Objectives.DecodeScriptWords | editor/objectives.py:103-132 | `parse_objective_script` gives at most 64 pairs, none for fewer than two script bytes, and pair `i` is the word at script offset `2i` split into (high byte, low byte) (about `Objectives.DecodeScriptData`) |
| Objectives.DecodeScriptNoAdjacentZeros | editor/objectives.py:119-126 | a single zero word is kept but two adjacent (0, 0) pairs never appear (about `Objectives.DecodeScriptData`) |
| Objectives.DecodeScriptTermination | editor/objectives.py:121-124 | decoding ends before the window does only at the second of two consecutive zero words, which is left out, so the last pair kept is (0, 0) (about `Objectives.DecodeScriptData`) |
| Objectives.ScanWordsFrom | editor/objectives.py:118-130 | one turn of the loop: a second zero word ends the scan, any other word is split and appended |
| Objectives.LoopWord | editor/objectives.py:117 | the word the loop unpacks at offset `2k` is word `k` of the window |
| Objectives.ScanStep | editor/objectives.py:118-130 | the loop's scan invariant survives one word |
| Objectives.WindowLimit | editor/objectives.py:109-115 | dropping an odd last byte and capping at 64 words gives the window and `limit / 2` words |
| Objectives.DecodeScriptWordsLoop | editor/objectives.py:103-132 | the loop with its `consecutive_zeros` counter computes exactly the decoded pairs (about `Objectives.DecodeScriptData`) |
| Scenario.EntryBytes | editor/data.py:40-42 | `MetadataEntry.to_bytes` is the text, its NUL terminator and `extra_zero_count` more NULs, nothing else |
| Scenario.EntriesBytesSnoc | editor/data.py:101-102 | the entries' bytes are each entry's bytes in order |
| Scenario.Texts | editor/data.py:60-61 | `metadata_strings` lists every entry's text in order |
| Scenario.RetextEntriesTexts | editor/data.py:63-69 | after `set_metadata_strings` the strings read back are exactly the new ones; each entry keeps its NUL count when the count of strings is unchanged, and the counts are zero when new entries replace the list (about `Scenario.RetextEntries`) |
| Scenario.EncodeShape | editor/data.py:71-113 | `to_bytes` succeeds only with exactly `block_size` bytes: the raw block verbatim (ValueError when its size differs) or the parts followed by NUL padding (ValueError when the parts are longer than the block) (about `Scenario.Encode`) |
| Scenario.ScenarioRecord.ToBytes | editor/data.py:71-113 | the method builds the parts, joins them, refuses an overflow and pads, giving exactly the encoding above (about `Scenario.Encode`) |
| Scenario.ScenarioRecord.SetMetadataStrings | editor/data.py:63-69 | the entries become the retexted entries and no other field changes (about `Scenario.RetextEntries`) |
| Scenario.SplitOnce | editor/data.py:173 | `split(marker, 1)` happens exactly when the marker occurs; the parts around the first occurrence rebuild the input |
| Scenario.SplitAtNul | editor/data.py:192-207 | the text up to the first NUL has no NUL, and text, NUL (when found) and rest rebuild the input; without a NUL the rest is empty |
| Scenario.SplitRemainder | editor/data.py:189-208 | the objectives, notes and the rest after the OBJECTIVES marker rebuild that remainder; without a NUL the rest is empty, without the SPECIAL NOTES marker the notes are empty |
| Scenario.SplitBlock | editor/data.py:170-208 | a split block is the forces text, the marker found and the remainder, in that order |
| Scenario.SplitBlockMarkers | editor/data.py:172-178 | splitting fails exactly when neither OBJECTIVES marker occurs, and the variant marker is used only when the standard one is absent |
| Scenario.SkipZeros | editor/data.py:211-213 | the NUL-skipping loop stops at the end or at a non-NUL byte |
| Scenario.SkipZerosSkipsZeros | editor/data.py:211-213 | every byte it skips is a NUL |
| Scenario.ParseEntries | editor/data.py:217-232 | the metadata loop stops within the remainder |
| Scenario.ReadEntry | editor/data.py:222-226 | one metadata entry always moves the cursor forward and stays within the remainder |
| Scenario.ParseEntriesWellFormed | editor/data.py:218-226 | each metadata entry is non-empty, holds no NUL and starts with a byte ≥ 0x20; the loop stops at the end or at a byte in 0x01..0x1F |
| Scenario.FirstEntryBytes | editor/data.py:218-232 | the first entry read is the string up to its NUL with the NULs after it; an entry with no NUL after it is the rest of the data and gains one NUL on output |
| Scenario.TerminatedEntryBytes | editor/data.py:222-226 | an entry read up to a NUL re-emits exactly the bytes it consumed |
| Scenario.UnterminatedEntryBytes | editor/data.py:222-226 | an entry read to the end of the data re-emits those bytes plus a NUL |
| Scenario.ParseEntriesReassembly | editor/data.py:217-235 | the entries re-emitted and the trailing bytes rebuild the data from the cursor on, with one NUL more when the last entry had no terminator |
| Scenario.TerminatedEntryReassembles | editor/data.py:222-232 | a terminated entry puts its own bytes in front of what the following entries rebuild |
| Scenario.TerminatedEntryFacts | editor/data.py:222-232 | the bytes of a terminated first entry, and the entries after it, split the remainder |
| Scenario.UnterminatedEntryReassembles | editor/data.py:222-232 | an entry without a NUL after it is the last one and gains a NUL |
| Scenario.EntriesBytesCons | editor/data.py:101-102 | the entries' bytes are the first entry's followed by the rest's |
| Scenario.ParseMetadataReassembly | editor/data.py:210-235 | leading NULs, entries and trailing bytes re-emit the post-notes remainder exactly, or with one extra NUL (and no trailing bytes) when the last entry runs to the end (see also editor/data.py:100-104) (about `Scenario.ParseMetadata`) |
| Scenario.MetadataParts | editor/data.py:210-235 | the leading NUL count, the entries and the trailing bytes are where the loops left the cursor (about `Scenario.ParseMetadata`) |
| Scenario.LeadingZeros | editor/data.py:211-215 | the leading NULs and what follows them make up the remainder |
| Scenario.ParseMetadataWellFormed | editor/data.py:211-235 | every entry is a non-empty NUL-free string starting with a byte ≥ 0x20, and `trailing_bytes` is empty or starts with a byte in 0x01..0x1F (about `Scenario.ParseMetadata`) |
| Scenario.RawBlockRoundTrip | editor/data.py:177-187 | a block with no OBJECTIVES marker is kept in `raw_block` with empty objectives, notes and trailing bytes, and is re-emitted byte for byte (see also editor/data.py:73-79) (about `Scenario.Encode`, `Scenario.ParseBlock`) |
| Scenario.StandardBlockRoundTrip | editor/data.py:151-235 | a block with the standard marker, NUL-terminated notes and metadata and text sections not ending in 0x00, 0xF0 or 0xFF parses and encodes back to itself (see also editor/data.py:71-113) (about `Scenario.Encode`, `Scenario.ParseBlock`, `Scenario.ParseMetadata`) |
| Scenario.EncodedHasMarker | editor/data.py:85-87 | without a raw block, an encoding holds the standard OBJECTIVES marker right after the forces text (about `Scenario.Encode`) |
| Scenario.VariantMarkerRewritten | editor/data.py:175-176 | a block that only has the "OBJECTIVES " variant marker never encodes back to itself, because the encoder writes the standard marker (see also editor/data.py:86) (about `Scenario.Encode`, `Scenario.ParseBlock`) |
| Scenario.ParseScenarioBlock | editor/data.py:151-235 | the method builds a new record whose state is the parse of the block (about `Scenario.ParseBlock`) |
| Scenario.SplitSections | editor/data.py:170-208 | the marker splitting computes exactly the split |
| Scenario.SplitAfterMarker | editor/data.py:189-208 | the SPECIAL NOTES and NUL splitting computes exactly the sections after the marker |
| Scenario.ParseEntriesStep | editor/data.py:218-232 | a printable byte at the cursor starts one more entry |
| Scenario.CountZeros | editor/data.py:211-226 | the NUL-counting loops stop where `SkipZeros` does |
| Scenario.ReadMetadata | editor/data.py:210-235 | the metadata loops compute exactly the leading NULs, entries and trailing bytes (about `Scenario.ParseMetadata`) |
| Scenario.ReadEntryAt | editor/data.py:219-232 | the loop body reads one entry and counts its extra NULs |
| Scenario.BlankScenarioFits | editor/data.py:260-277 | `create_blank_scenario` for any index below 65536 encodes to exactly 5883 bytes (about `Scenario.Encode`, `Scenario.BlankScenario`) |
| Scenario.OffsetIsProduct | editor/data.py:135 | the block offsets are `idx * block_len` |
| Scenario.OffsetMonotone | editor/data.py:134-136 | later blocks start no earlier |
| Scenario.Blocks | editor/data.py:134-136 | block `i` is `payload[i * block_len:][:block_len]` (about `Scenario.BlockAt`) |
| Scenario.ParseAll | editor/data.py:134-137 | one record per block |
| Scenario.ExactBlocks | editor/data.py:132-136 | when the count divides the payload the blocks cover it exactly |
| Scenario.Encodings | editor/data.py:146-147 | one `to_bytes` result per record |
| Scenario.EncodingsAt | editor/data.py:146-147 | the `k`-th result is the `k`-th record's encoding (about `Scenario.Encode`) |
| Scenario.JoinErrPrefix | editor/data.py:146-147 | once a record fails to encode, saving fails with that error (about `Scenario.Join`) |
| Scenario.JoinStep | editor/data.py:146-147 | each record's bytes follow the ones before it, and its error is the save's error (about `Scenario.Join`) |
| Scenario.JoinConcat | editor/data.py:144-147 | records that all encode give their blocks concatenated (about `Scenario.Join`) |
| Scenario.EncodeAllConcat | editor/data.py:144-147 | records each encoding to a block save as those blocks joined (about `Scenario.Encode`, `Scenario.EncodeAll`) |
| Scenario.ConcatBlocks | editor/data.py:132-136 | the first `n` blocks joined are the first `n * block_len` bytes |
| Scenario.LastBlock | editor/data.py:134-136 | the first `n` blocks are the first `n - 1` and the block ending at offset `n` |
| Scenario.LoadBlocksEncode | editor/data.py:126-147 | blocks that each encode back to themselves save as the payload's blocks joined |
| Scenario.LoadSaveRoundTrip | editor/data.py:126-148 | loading then saving gives the same bytes when the payload is an exact multiple of the count and each block encodes back to itself |
| Scenario.LoadScenariosShape | editor/data.py:126-138 | a non-zero count loads exactly that many blocks from the payload after the count (about `Scenario.LoadScenarios`) |
| Scenario.CountHeader | editor/data.py:128-145 | the count is the file's first two bytes |
| Scenario.PayloadBlocks | editor/data.py:132-136 | a payload that splits evenly is its blocks joined |
| Scenario.Values | editor/data.py:119 | one state per record |
| Scenario.ValuesAt | editor/data.py:119 | the `k`-th state is the `k`-th record's |
| Scenario.LoadScenarioFile | editor/data.py:126-138 | `ScenarioFile.load` fails exactly when the count cannot be read, and otherwise returns new records whose states are the loaded blocks (about `Scenario.LoadScenarios`) |
| Scenario.ParseBlockRecords | editor/data.py:131-137 | the block loop builds new records whose states are the blocks parsed with their indices |
| Scenario.ParseBlockRecord | editor/data.py:135-137 | one step of that loop appends the next block's record |
| Scenario.LoadBlocksAt | editor/data.py:134-137 | record `idx` is block `idx` parsed with index `idx` (about `Scenario.ParseBlock`, `Scenario.BlockAt`) |
| Scenario.ValuesSnoc | editor/data.py:137 | appending a record appends its state |
| Scenario.SaveScenarioFile | editor/data.py:140-148 | `ScenarioFile.save` writes the count then each record's bytes; it fails for 65536 or more records (the count does not fit `<H`) or with the first record's error (about `Scenario.SaveScenarios`) |
| Scenario.ScenarioRecord.constructor | editor/data.py:46-58 | a record holds exactly the given scenario value |
| Scenario.ScenarioRecord.MetadataStrings | editor/data.py:60-61 | one text per metadata entry |
| ScriptEditor.ScriptWords | scenario_editor.py:1946 | one word `(opcode << 8) \| operand` per pair |
| ScriptEditor.MetadataPortion | scenario_editor.py:1936-1943 | the kept metadata is a prefix of the original trailing bytes |
| ScriptEditor.EncodeScriptLayout | scenario_editor.py:1929-1950 | `_encode_objective_script` keeps every byte before the located script start (or the whole original when no script bytes are found) and appends each pair as its little-endian word, operand byte first; length = prefix + 2 × pairs (about `Objectives.LocateScriptStart`, `ScriptEditor.EncodeScript`) |
| ScriptEditor.MetadataPortionStart | scenario_editor.py:1936-1943 | the kept prefix ends exactly where the located script starts (about `Objectives.LocateScriptStart`) |
| ScriptEditor.PackedPairs | scenario_editor.py:1946-1950 | after any prefix, pair `i` sits at prefix + `2i` as operand then opcode |
| ScriptEditor.PackedPair | scenario_editor.py:1946-1947 | one pair's two bytes in the packed words |
| ScriptEditor.OccurrenceParts | scenario_editor.py:1950 | a token occurrence in metadata + script lies in the metadata or in the script |
| ScriptEditor.OccurrenceByte | editor/objectives.py:81 | a byte inside an occurrence is the token's byte |
| ScriptEditor.OccurrenceInPrefix | scenario_editor.py:1950 | with metadata ending in NUL and token-free words, every token occurrence lies wholly in the metadata |
| ScriptEditor.TokenStartAfterAppend | scenario_editor.py:1950 | appending token-free words after a token-located start leaves the located start where it was (see also editor/objectives.py:80-83) |
| ScriptEditor.AppendOccurrences | scenario_editor.py:1950 | token-free words after a NUL add no difficulty-token occurrence |
| ScriptEditor.TokenEndsInNul | editor/objectives.py:6-13 | the byte before a token-located script start is the token's NUL (see also editor/objectives.py:83) |
| ScriptEditor.SameFirstPresent | editor/objectives.py:80-82 | two blobs with the same token occurrences pick the same first present token |
| ScriptEditor.SameLastOccurrence | editor/objectives.py:81 | `rfind` finds the same last occurrence when no later one is added |
| ScriptEditor.EncodedScriptBytes | scenario_editor.py:1929-1950 | under the re-parse conditions, the script bytes located in the output are exactly the packed words (about `ScriptEditor.EncodeScript`) |
| ScriptEditor.TokenStartPrefix | editor/objectives.py:80-83 | cutting a blob right after its token start keeps that start |
| ScriptEditor.PrefixOccurrence | editor/objectives.py:81 | occurrences in a prefix are occurrences in the whole, and conversely for those ending inside it |
| ScriptEditor.PairWordZero | scenario_editor.py:1946 | only the (0, 0) pair is stored as the zero word |
| ScriptEditor.DecodePackedScript | editor/objectives.py:103-132 | packed words of at most 64 pairs with no two adjacent (0, 0) pairs decode back to the pairs (see also scenario_editor.py:1946-1947) (about `Objectives.DecodeScriptData`) |
| ScriptEditor.EncodeScriptRoundTrip | scenario_editor.py:1929-1950 | re-parsing the encoding gives the edited list back when the original start came from a difficulty token, the list has at most 64 pairs and no adjacent (0, 0), and the new words hold no difficulty token (about `Objectives.ParseScript`, `ScriptEditor.EncodeScript`) |
| ScriptEditor.ApplyWordEffect | scenario_editor.py:2650-2684 | an applied edit re-parses to the old script with only the selected pair replaced, the operand masked to 0xFF (about `Objectives.ParseScript`, `ScriptEditor.ApplyWord`) |
| ScriptEditor.ApplyWordEdits | scenario_editor.py:2673-2684 | with a selection in range and an opcode in 0..255 the new trailing bytes are the encoding of the script with that pair replaced (about `Objectives.ParseScript`, `ScriptEditor.EncodeScript`, `ScriptEditor.ApplyWord`) |
| ScriptEditor.ApplyWordRefusals | scenario_editor.py:2654-2679 | `apply_win_word` refuses, leaving `trailing_bytes` alone, exactly for a missing selection, an opcode outside 0..255 or an index past the script's end (about `Objectives.ParseScript`, `ScriptEditor.ApplyWord`) |
| ScriptEditor.AddWordEffect | scenario_editor.py:2690-2700 | `add_win_word` appends (0x01, 0x00) after the old pairs, and the output grows to prefix + 2 × (pairs + 1) bytes (about `Objectives.ParseScript`, `ScriptEditor.AddWord`) |
| ScriptEditor.RemovePair | scenario_editor.py:2711-2723 | the selected pair (the last one without a selection) is deleted and the others keep their order |
| ScriptEditor.RemoveWordIsEncode | scenario_editor.py:2706-2733 | a removal happens exactly when the script is non-empty and the selection is in range; cutting the trailing bytes at the script start for an emptied script is the encoder applied to the empty script (about `Objectives.ParseScript`, `ScriptEditor.EncodeScript`, `ScriptEditor.RemoveWord`) |
| ScriptEditor.RemoveWordEffect | scenario_editor.py:2706-2733 | a removal re-parses to the old script without the removed pair (about `Objectives.ParseScript`, `ScriptEditor.RemoveWord`) |
| ScriptEditor.ApplyWinWord | scenario_editor.py:2650-2684 | the record's `trailing_bytes` becomes the edit's bytes, or stays when refused; nothing else changes (about `ScriptEditor.ApplyWord`) |
| ScriptEditor.AddWinWord | scenario_editor.py:2690-2700 | only `trailing_bytes` changes, to the encoding with (0x01, 0x00) appended (about `ScriptEditor.AddWord`) |
| ScriptEditor.RemoveWinWord | scenario_editor.py:2706-2733 | only `trailing_bytes` changes, and only when the removal happens (about `ScriptEditor.RemoveWord`) |
| ScriptEditor.TrailingWordsSpec | scenario_editor.py:2623-2630 | `_trailing_words` gives the bytes one by one for an odd length, nothing for no bytes, and otherwise the little-endian words, which pack back to the bytes (about `ScriptEditor.TrailingWords`) |
| ScriptEditor.ReSubRegionCodeSpec | scenario_editor.py:3091-3096 | the two characters after the first "rp" become the upper-cased code and everything else stays; without "rp" the result is "rp" + CODE; the first "rp" of the result is where it was (about `ScriptEditor.ReSubRegionCode`) |
| ScriptEditor.ReSubRegionCodeIdempotent | scenario_editor.py:3091-3096 | substituting the same two-character code twice equals doing it once (about `ScriptEditor.ReSubRegionCode`) |
| ScriptEditor.FirstEnd | scenario_editor.py:1713-1718 | the first opcode-0x00 pair at or after a position: it is one, and none comes before it |
| ScriptEditor.HeaderTags | scenario_editor.py:1752-1761 | PLAYER_SECTION rows with operand 0x0d, 0x00, 0xc0 get the green, red, campaign header tag, exactly those, and other PLAYER_SECTION rows get no tag (about `ScriptEditor.TagAt`) |
| ScriptEditor.SideWithoutPlayerMarkers | scenario_editor.py:1727-1736 | without green or red markers the side is Campaign throughout when a (0x01, 0xc0) pair is present and Neutral throughout otherwise |
| ScriptEditor.UnsetBeforeMarkers | scenario_editor.py:1730-1777 | with green or red markers and no campaign marker, the side is unset and rows get no tag until the first marker (about `ScriptEditor.TagAt`) |
| ScriptEditor.EndZeroTurnsRed | scenario_editor.py:1762-1767 | the `end_zero_index` row gets no tag and, with Green in force and no (0x01, 0x00), the rows after it are Red (about `ScriptEditor.TagAt`) |
| ScriptEditor.RowTagsOf | scenario_editor.py:1738-1777 | one tag per row |
| ScriptEditor.FindEndZero | scenario_editor.py:1709-1718 | the pre-scan finds the first END pair, only when a pair follows it |
| ScriptEditor.RowTags | scenario_editor.py:1706-1777 | the tagging loop computes the row tags of the whole script |
| ScriptEditor.RowTagsStep | scenario_editor.py:1738-1777 | one pass of the loop appends the row's tag and leaves the side in force before the next row |
| Region.CodeFrom | editor/data.py:376-380 | a match found at or after a position has room for "rp" and two characters |
| Region.CodeFromSpec | editor/data.py:376-380 | the search finds the leftmost "rp" followed by two characters of `[A-Z0-9]` at or after the position, or reports that none exists |
| Region.FindRegionCodeSpec | editor/data.py:376-380 | `_find_region_code` finds a code exactly when the pattern occurs; the code is the two `[A-Z0-9]` characters after the leftmost match (about `Region.FindRegionCode`) |
| Region.FirstWhereSpec | editor/data.py:616-623 | the first field whose text satisfies the test is the least such index; none means no field does (about `Region.FirstWhere`) |
| Region.HeaderOf | editor/data.py:592-593 | the header is at most 33 bytes |
| Region.SplitName | editor/data.py:594-600 | the cursor after the name is at most one past the header |
| Region.ParseBlock | editor/data.py:591-614 | `parse_region_block` succeeds exactly when the block has the 32 bytes `struct.unpack("<16H", block[-32:])` needs |
| Region.ParseFieldsShape | editor/data.py:601-612 | every field read holds no NUL, and only the last may lack a NUL terminator (about `Region.ParseFields`) |
| Region.ParseBlockShape | editor/data.py:591-632 | a parsed region has 16 tail words; its adjacency field is the first non-empty, upper-case, even-length field and its region-code field the first holding a code, with no earlier field qualifying (about `Scenario.ParseBlock`) |
| Region.FieldsBytesSnoc | editor/data.py:348-351 | the fields' bytes are each field's raw bytes and NUL in order |
| Region.TailBytes | editor/data.py:358-360 | the tail is always 32 bytes |
| Region.Encode | editor/data.py:344-360 | `to_bytes` always yields 65 bytes |
| Region.EncodeShape | editor/data.py:344-360 | `to_bytes` fails exactly when name, NULs and fields exceed 33 bytes; otherwise the header bytes come first, NULs pad to 33 bytes and tail word `k` is the `k`-th word (zero past the given ones) |
| Region.TailWord | editor/data.py:358-360 | word `k` of the tail is the `k`-th given word, or zero past them |
| Region.FieldsRoundTrip | editor/data.py:601-612 | the fields read from a cursor encode back to the rest of the header (see also editor/data.py:348-351) (about `Region.ParseFields`) |
| Region.LastFieldRoundTrip | editor/data.py:604-607 | without a further NUL, the single remaining field is the rest of the header (about `Region.ParseFields`) |
| Region.FieldRoundTrip | editor/data.py:608-611 | a NUL-ended field encodes to the header up to and including that NUL (about `Region.ParseFields`) |
| Region.ParseFieldsStep | editor/data.py:602-612 | one turn of the field loop reads up to the next NUL (about `Region.ParseFields`) |
| Region.FieldsBytesCons | editor/data.py:348-351 | the fields' bytes are the first field's followed by the rest's |
| Region.HeaderRoundTrip | editor/data.py:593-612 | a 33-byte header with a NUL parses into a name and fields that encode back to it (see also editor/data.py:345-351) (about `Region.ParseFields`) |
| Region.EncodeFull | editor/data.py:352-360 | a header of exactly 33 bytes is followed directly by the tail |
| Region.TailRoundTrip | editor/data.py:613-614 | sixteen words unpacked from 32 bytes re-pack to those bytes (see also editor/data.py:358-360) |
| Region.RoundTrip | editor/data.py:591-614 | a 65-byte record whose 33-byte header holds a NUL parses and encodes back to itself; one whose header has no NUL parses, but its `to_bytes` raises the overflow error (see also editor/data.py:344-360) (about `Scenario.ParseBlock`) |
| Region.WithPosition | editor/data.py:319-324 | the tail is padded to at least eight words |
| Region.PositionRoundTrip | editor/data.py:306-324 | after `set_map_position`, `map_position` returns the four values masked to 0xFF; the low bytes of words 5 and 6 and every other word are kept (padding words are zero) (about `Region.MapPositionOf`) |
| Region.Pairs | editor/data.py:335 | an even-length text splits into half as many codes |
| Region.WithAdjacentCodes | editor/data.py:337-342 | setting codes keeps the field indices valid |
| Region.AdjacentCodesSpell | editor/data.py:326-335 | `adjacent_codes` are two-character pieces that spell the adjacency text (about `Region.AdjacentCodesOf`) |
| Region.PairsFlatten | editor/data.py:335 | joining the codes from `k` on gives the text from `2k` on |
| Region.AdjacentCodesRoundTrip | editor/data.py:326-342 | setting two-character codes on a region with an adjacency field and reading them back gives the codes upper-cased (about `Region.AdjacentCodesOf`) |
| Region.JoinUpperPairs | editor/data.py:341 | the joined upper-cased codes hold code `i` at `2i` |
| Region.MapRegion.constructor | editor/data.py:292-299 | a region object holds the given state |
| Region.MapRegion.Clone | editor/data.py:362-373 | `clone` is a new object with the same state |
| Region.MapRegion.SetMapPosition | editor/data.py:319-324 | the tail words become the positioned words and nothing else changes |
| Region.MapRegion.SetAdjacentCodes | editor/data.py:337-342 | the region becomes the region with the codes set |
| Region.MapRegion.ToBytes | editor/data.py:344-360 | the header-building loop and padding compute exactly the encoding |
| Region.ReadFields | editor/data.py:601-612 | the field loop computes exactly the fields (about `Region.ParseFields`) |
| Region.ClassifyFields | editor/data.py:616-623 | the classification loop finds the first adjacency field and the first region-code field (about `Region.FirstWhere`) |
| Region.ParseRegionBlock | editor/data.py:591-632 | fails exactly when the block is shorter than 32 bytes; otherwise a new region object holding the parse (about `Scenario.ParseBlock`) |
| Units.PointerEntry.constructor | editor/data.py:383-389 | a pointer entry holds the given index, start, count, data and length |
| Units.PointerEntry.Classification | editor/data.py:391-394 | "unit_table" exactly for the unit slots holding at least one 32-byte frame, "raw_bytes" otherwise |
| Units.PointerEntry.Clone | editor/data.py:396-403 | `clone` is a new entry with the same fields |
| Units.BaseWords | editor/data.py:418-420 | the words `encode` starts from are always sixteen |
| Units.EncodeShape | editor/data.py:417-425 | `encode` succeeds exactly when `owner_raw` fits a byte (struct.error otherwise); the frame is 32 bytes with the template id's low byte, the owner, and the region index, x and y masked to 16 bits in words 0-3, and the raw words (padded with zeros) after them (about `Units.Encode`) |
| Units.EncodeIgnoresIcon | editor/data.py:415-425 | the template icon plays no part in a unit's frame (about `Units.Encode`) |
| Units.RebuildFramesAlike | editor/data.py:435-443 | tables whose units encode alike rebuild alike (about `Units.Encode`) |
| Units.FrameRoundTrip | editor/data.py:417-425 | encoding a decoded frame reproduces the frame exactly (see also editor/data.py:642-657) (about `Units.Encode`, `Units.DecodeFrame`) |
| Units.Frame | editor/data.py:639 | a frame is 32 bytes |
| Units.ParseUnits | editor/data.py:638-658 | at most one unit per frame |
| Units.SlotCount | editor/data.py:637 | the slot count's frames fit in the chunk |
| Units.ReadUnitTable | editor/data.py:635-660 | the frame loop computes exactly the parsed table (about `Units.ParseUnitTable`) |
| Units.ParseUnitsSound | editor/data.py:638-659 | every unit is an occupied frame decoded with slot = frame index, template id = low byte and owner = high byte of word 0, and slots strictly increase, so the sort by slot changes nothing |
| Units.SnocParts | editor/data.py:648 | appending keeps the earlier units |
| Units.ParseUnitsComplete | editor/data.py:638-641 | every frame that is not all zeros yields a unit |
| Units.ParseUnitsPacked | editor/data.py:638-658 | when the occupied frames come first, unit `k` is frame `k` decoded (about `Units.DecodeFrame`) |
| Units.RebuildErrStays | editor/data.py:437-442 | once a frame fails to encode the rebuild fails with that error |
| Units.RebuildOk | editor/data.py:435-443 | the rebuild fails exactly when a unit placed in it cannot be encoded |
| Units.RebuildFrameAt | editor/data.py:435-443 | `rebuild_chunk` gives exactly `max_slots` × 32 bytes: frame `i` is `units[i]` encoded (by list position), zero frames after the last unit |
| Units.FrameAtEnd | editor/data.py:442-443 | an appended frame is the last frame |
| Units.ParseRebuild | editor/data.py:435-443 | parsing then rebuilding with the chunk's own slot count gives the chunk back exactly when its length is a multiple of 32 and its empty frames all come after the occupied ones (see also editor/data.py:635-660) (about `Units.ParseUnitTable`, `Units.Rebuild`) |
| Units.PackedRebuild | editor/data.py:435-443 | a chunk whose occupied frames come first rebuilds from its parse (about `Units.Rebuild`) |
| Units.RebuildPacked | editor/data.py:435-443 | a chunk that rebuilds from its parse has its occupied frames first (about `Units.Rebuild`) |
| Units.RebuildSlot | editor/data.py:435-443 | in such a chunk frame `p` is occupied exactly when the table has a `p`-th unit (about `Units.Rebuild`) |
| Units.CutZerosLast | editor/data.py:640-641 | frames occupied exactly below an index have their empty frames last |
| Units.Without | editor/data.py:461 | filtering never adds units |
| Units.Renumbered | editor/data.py:462-463 | renumbering keeps the count |
| Units.WithoutSpec | editor/data.py:461 | the filter keeps exactly the units of another slot |
| Units.RemoveNumbered | editor/data.py:460-463 | in a table numbered 0..n-1, removing slot `k` deletes the `k`-th unit and removing any other slot keeps every unit |
| Units.WithoutAbsent | editor/data.py:461 | dropping a slot no unit has changes nothing |
| Units.WithoutShiftFrom | editor/data.py:461 | in a list numbered from `base`, removing slot `k` deletes its `(k - base)`-th unit |
| Units.WithoutCons | editor/data.py:461 | one step of the filter |
| Units.UnitTable.constructor | editor/data.py:428-433 | a unit table holds the given kind, entry, units and slot count |
| Units.UnitTable.RebuildChunk | editor/data.py:435-443 | the frame loop computes exactly the rebuilt chunk (about `Units.Rebuild`) |
| Units.UnitTable.SyncToPointer | editor/data.py:445-451 | the entry's data becomes the rebuilt chunk, or stays with a ValueError when the sizes differ or a unit fails to encode; the entry's other fields stay (about `Units.Rebuild`) |
| Units.UnitTable.AddUnit | editor/data.py:453-458 | `add_unit` raises exactly when `len(units) ≥ max_slots` and otherwise appends the unit in slot `len(units)`, with sixteen zero words when it had none (about `Units.Added`) |
| Units.UnitTable.RemoveUnit | editor/data.py:460-463 | `remove_unit` drops the units in that slot and numbers the rest 0..n-1 in order |
| Units.AddedSpec | editor/data.py:453-458 | the table grows by one unit in the next slot and stays numbered 0..n-1 when it was (about `Units.Added`) |
| MapFiles.ParseRegions | editor/data.py:482-488 | the region loop yields one region per record |
| MapFiles.ParseRegionsSpec | editor/data.py:482-488 | the regions load exactly when every 65-byte record holds at least its 32-byte tail, and region `i` is the parse of record `i` with index `i` |
| MapFiles.ParseRegionsOk | editor/data.py:485-488 | the region loop fails exactly when some record is shorter than its tail |
| MapFiles.ParseRegionAt | editor/data.py:485-488 | region `i` is record `i` parsed |
| MapFiles.ReadPairs | editor/data.py:490-495 | the pointer loop yields sixteen pairs |
| MapFiles.ReadPairsSpec | editor/data.py:490-495 | a non-empty pointer table reads exactly when its `4n` bytes are present, and pair `i` is the word at `off + 4i` and the word after it |
| MapFiles.LeastAboveSpec | editor/data.py:502-512 | the next-start lookup over the sorted starts gives the least start strictly above an entry's, or none when no start exceeds it (about `MapFiles.LeastAbove`) |
| MapFiles.AbsStarts | editor/data.py:502-504 | one absolute start per pair |
| MapFiles.Entries | editor/data.py:514-526 | one entry per pair |
| MapFiles.EntryFields | editor/data.py:514-526 | entry `i` carries index `i` and its pair's start and count |
| MapFiles.EntryExtent | editor/data.py:502-526 | an entry is the file's bytes from its absolute start to the next larger start or the end of the file, never past any larger start; its length is its data's; a start past the end gives an empty entry |
| MapFiles.WithIcons | editor/data.py:534-537 | attaching template icons keeps the unit count |
| MapFiles.WithIconsRebuild | editor/data.py:534-537 | attaching icons changes only each unit's icon, so the table rebuilds to the same chunk (see also editor/data.py:435-443) (about `Units.Rebuild`) |
| MapFiles.TablesOf | editor/data.py:528-543 | one unit table per unit pointer slot |
| MapFiles.UnitSlotsKinds | editor/data.py:529-532 | the slots given tables are exactly those of the unit-pointer map, with their kinds |
| MapFiles.LoadShape | editor/data.py:480-552 | a loaded file has fewer than 65536 regions, every record whole, sixteen entries carrying their own index and length, the blob from the end of the pointer table on, and one table per unit slot (about `MapFiles.LoadData`) |
| MapFiles.SyncFromSpec | editor/data.py:560-561 | syncing keeps every entry's fields except unit-slot data, keeps the data's length, leaves non-unit entries alone, and when no table fails each unit entry holds its table's rebuilt chunk (see also editor/data.py:445-451) (about `MapFiles.SyncFrom`, `Units.Rebuild`) |
| MapFiles.SyncUnchanged | editor/data.py:560-561 | tables that already rebuild to their entries' data leave the entries unchanged (about `MapFiles.SyncFrom`, `Units.Rebuild`) |
| MapFiles.EncodeRegions | editor/data.py:565-566 | 65 bytes per region |
| MapFiles.EncodeRegionsSpec | editor/data.py:565-566 | the regions encode exactly when each one does, into 65 bytes each, in order (see also editor/data.py:369-380) |
| MapFiles.EncodePairs | editor/data.py:568-571 | 4 bytes per entry |
| MapFiles.EncodePairsSpec | editor/data.py:568-571 | the pointer table packs exactly when every start and count fits in 16 bits, and its words read back as each entry's start and count |
| MapFiles.WriteEntries | editor/data.py:573-586 | writing keeps the blob's size |
| MapFiles.WriteEntriesOk | editor/data.py:574-585 | writing raises exactly when some entry changed length or ends past the blob |
| MapFiles.WriteEntriesUntouched | editor/data.py:586 | a blob byte no entry covers keeps its value |
| MapFiles.WriteEntriesLastWins | editor/data.py:574-586 | a covered byte holds the byte of the last entry covering it |
| MapFiles.WriteOne | editor/data.py:586 | one slice assignment replaces exactly the covered bytes |
| MapFiles.WriteEntriesSame | editor/data.py:574-586 | entries whose data already sits at their starts leave the blob as it is |
| MapFiles.EncodePairsStarts | editor/data.py:570 | a packed table has no negative start |
| MapFiles.Serialize | editor/data.py:563-587 | serialising succeeds only with non-negative starts |
| MapFiles.SerializeShape | editor/data.py:563-587 | the saved bytes are the region-count word, the encoded regions, the packed pointer table and the written blob at its old size |
| MapFiles.LoadSaveRoundTrip | editor/data.py:480-588 | loading a file and saving it gives back the same bytes, when every region header holds a NUL, every unit chunk is whole frames with its empty frames last, and every entry starts inside the blob (about `MapFiles.LoadData`, `MapFiles.SaveData`) |
| MapFiles.SavedParts | editor/data.py:480-588 | a file read part by part that saves back saves to its own bytes (about `MapFiles.SaveData`) |
| MapFiles.SerializedBack | editor/data.py:563-587 | serialising the parts read from such a file gives the file |
| MapFiles.RegionsBack | editor/data.py:485-488 | loaded regions encode to the bytes they were read from (see also editor/data.py:565-566) |
| MapFiles.EntriesBack | editor/data.py:492-586 | loaded entries pack to the pointer table and write the blob back unchanged |
| MapFiles.BlobBack | editor/data.py:514-586 | entries starting inside the blob write it back unchanged |
| MapFiles.RegionsWriteBack | editor/data.py:485-488 | regions whose headers hold a NUL encode back to their records (see also editor/data.py:565-566) |
| MapFiles.PairsWriteBack | editor/data.py:492-495 | the loaded pointer table packs back to its bytes (see also editor/data.py:568-571) |
| MapFiles.BlobWritesBack | editor/data.py:514-586 | loaded entries that start inside the blob write it back unchanged |
| MapFiles.LoadParts | editor/data.py:480-552 | a loaded file's count, regions, pairs, entries, tables and blob are the pieces read at their offsets (about `MapFiles.LoadData`) |
| MapFiles.SyncLoaded | editor/data.py:560-561 | tables loaded from chunks that pack rebuild to them, so `save`'s sync changes nothing (see also editor/data.py:635-660) (about `MapFiles.SaveData`) |
| MapFiles.SerializeParts | editor/data.py:563-587 | serialising from encoded parts concatenates them |
| MapFiles.EncodeRegionsPrefix | editor/data.py:565-566 | one more region appends its 65 bytes |
| MapFiles.EncodePairsPrefix | editor/data.py:569-570 | one more entry appends its 4 bytes |
| MapFiles.EncodeEachRegion | editor/data.py:565-566 | regions that each encode to their own record encode together to the records in a row |
| MapFiles.EncodeParsedRegion | editor/data.py:487 | a loaded region whose header holds a NUL encodes to its record (see also editor/data.py:369-380) |
| MapFiles.EncodeReadPairs | editor/data.py:492-495 | entries whose starts and counts were read from a table pack back to its bytes (see also editor/data.py:568-571) |
| MapObjects.MapFile.constructor | editor/data.py:466-473 | a map file holds the given regions, pointer entries, unit tables and blob |
| MapObjects.MapFile.Load | editor/data.py:480-552 | `load` fails exactly when the value model does, and otherwise builds fresh objects: sixteen distinct entries, table `k` sharing entry 5, 8 or 11, and values equal to what the value model reads (about `MapFiles.LoadData`) |
| MapObjects.MapFile.Assemble | editor/data.py:496-552 | builds a fresh, valid file whose entries, tables and blob are the value model's for the regions and pairs read |
| MapObjects.MapFile.Save | editor/data.py:554-588 | `save` returns the value model's saved bytes for the file as it was, and leaves the entries as the sync left them, also when it fails (about `MapFiles.SaveData`, `MapFiles.SyncFrom`) |
| MapObjects.MapFile.SyncTables | editor/data.py:560-561 | the sync loop leaves the entries and error the value-model sync gives (about `MapFiles.SyncFrom`) |
| MapObjects.MapFile.SyncOne | editor/data.py:561 | one round of the sync loop: a failure leaves the entries as they were, success advances the value-model sync by one table (see also editor/data.py:445-451) (about `MapFiles.SyncFrom`) |
| MapObjects.MapFile.Serialized | editor/data.py:563-587 | the serialising half of `save` computes exactly the value model's bytes |
| MapObjects.ReadRegions | editor/data.py:484-488 | the region loop fails exactly when the value model does, and the regions' values are the parsed records |
| MapObjects.ReadPointerPairs | editor/data.py:490-495 | the pointer loop computes exactly the sixteen pairs of the value model |
| MapObjects.NextStart | editor/data.py:506-512 | the next-start scan returns the least start strictly above the entry's, or none (about `MapFiles.LeastAbove`) |
| MapObjects.ReadEntries | editor/data.py:514-526 | the entry loop builds distinct entries whose values are the value model's entries |
| MapObjects.AttachIcons | editor/data.py:534-537 | the icon loop gives exactly the units with template icons attached |
| MapObjects.BuildTables | editor/data.py:528-543 | the table loop builds one table per unit slot over that slot's own entry object, with the value model's kind, units and slot count |
| MapObjects.WriteRegions | editor/data.py:565-566 | the region loop of `save` computes exactly the encoded regions |
| MapObjects.WritePairs | editor/data.py:568-571 | the pointer-table loop of `save` computes exactly the packed table |
| MapObjects.WriteBlob | editor/data.py:573-586 | the blob loop of `save` computes exactly the written blob or its first error |
| MapObjects.LoadDataParts | editor/data.py:480-552 | `load` succeeds exactly when the regions and the pointer table read, and then holds those parts (about `MapFiles.LoadData`) |
| MapObjects.LoadDataOk | editor/data.py:480-552 | with the regions and the pointer table read, `load` yields exactly those regions, the entries and tables over the blob after the table, and that blob (about `MapFiles.LoadData`) |
| MapObjects.ReadPairsErrStays | editor/data.py:492-494 | once a pair read fails, later pairs do not change the error |
| MapObjects.RegionsParseStep | editor/data.py:485-488 | one more region record parsed |
| MapObjects.ParseRegionsErrStays | editor/data.py:485-488 | once a region fails, later records do not change the error |
| MapObjects.RegionsStep | editor/data.py:565-566 | one more region encoded |
| MapObjects.RegionsErrStays | editor/data.py:565-566 | once a region fails to encode, later regions do not change the error |
| MapObjects.PairsStep | editor/data.py:569-570 | one more pair packed |
| MapObjects.PairsErrStays | editor/data.py:569-570 | once a pair fails to pack, later pairs do not change the error |
| MapObjects.WritesStep | editor/data.py:574-586 | one more entry checked and written |
| MapObjects.WritesErrStays | editor/data.py:574-585 | once an entry fails its check, later entries do not change the error |
| Dump.PairsAvailable | tools/dump_5th_fleet.py:45-53 | `chunk_pairs` reads `count` pairs, or stops at the first pair that would run past the data, keeping exactly the pairs that fit |
| Dump.ChunkPairs | tools/dump_5th_fleet.py:45-53 | one pair per available slot |
| Dump.ReadChunkPairs | tools/dump_5th_fleet.py:45-53 | the loop computes exactly the pairs that fit |
| Dump.ChunkPairsAgree | tools/dump_5th_fleet.py:45-53 | where the editor's table read succeeds the dump reads the same pairs; where the editor raises the dump returns fewer pairs than asked for (see also editor/data.py:490-495) |
| Dump.FieldsCover | tools/dump_5th_fleet.py:172-189 | the fields hold no NUL, joined with their terminators they are the block bytes they were read from (the last may be unterminated), and the loop stops with at most 32 bytes left |
| Dump.ReadFields | tools/dump_5th_fleet.py:178-189 | the field loop computes exactly the fields and the end offset |
| Dump.LastAdjacency | tools/dump_5th_fleet.py:223-229 | the reversed scan finds the last field that is adjacency text (non-empty, upper case, even length), or none when no field is |
| Dump.FindAdjacency | tools/dump_5th_fleet.py:223-229 | the loop computes exactly the adjacency codes of the fields |
| Dump.LabelHint | tools/dump_5th_fleet.py:194-198 | the label hint is the first ten tail bytes without trailing NULs, present exactly when longer than one character and wholly printable |
| Dump.PcxOf | tools/dump_5th_fleet.py:200-221 | PCX coordinates exist exactly for panels 0 and 1, shifted by (184, 0) and (48, 8) (see also tools/dump_5th_fleet.py:28) |
| Dump.ParseDumpRegion | tools/dump_5th_fleet.py:167-231 | the region parses exactly when the block holds at least its 32-byte tail |
| Dump.ParseRegionBlock | tools/dump_5th_fleet.py:167-231 | the parser computes exactly the dump region |
| Dump.DumpRegionTail | tools/dump_5th_fleet.py:192-213 | the tail words are the block's last 32 bytes as words, and the map position is the one the editor reads from them (about `Region.MapPositionOf`) |
| Dump.DumpRegionAdjacency | tools/dump_5th_fleet.py:172-229 | the name holds no NUL; adjacency codes are absent exactly when no field is adjacency text, and otherwise are the two-character split of the last field that is |
| Dump.SectionLength | tools/dump_5th_fleet.py:293-295 | the section never starts its bytes before the data |
| Dump.Sections | tools/dump_5th_fleet.py:290-297 | one section per pair |
| Dump.SectionFallbackInert | tools/dump_5th_fleet.py:269-297 | the `min(count, …)` fallback never changes the chunk: each section holds exactly the bytes the editor's `load` gives the entry, and is non-empty when it starts inside the data (see also editor/data.py:502-526) |
| Dump.ReadSections | tools/dump_5th_fleet.py:290-297 | the section loop, next-start lookup included, computes exactly the sections for a given base and pairs |
| Dump.DumpBase | tools/dump_5th_fleet.py:269 | `pointer_data_base` lies between the table offset and the table offset plus 64 |
| Dump.DumpSectionsOf | tools/dump_5th_fleet.py:236-297 | the dump gets to its sections exactly when the count word reads and every region record holds its 32-byte tail, and then reports at most sixteen sections |
| Dump.ParseMapSections | tools/dump_5th_fleet.py:236-297 | the count read, region loop, `chunk_pairs` call, base and section loop compute exactly the dump's sections or its error |
| Dump.ReadRecords | tools/dump_5th_fleet.py:239-244 | the region loop succeeds exactly when every record holds the 32-byte tail its parse needs |
| Dump.DumpSectionsOk | tools/dump_5th_fleet.py:246-269 | the sections are those of the pairs `chunk_pairs` reads at `2 + 65 * count`, measured from `pointer_data_base` |
| Dump.RecordsAgree | tools/dump_5th_fleet.py:239-244 | the dump and the editor refuse the same region records (see also editor/data.py:483-488) |
| Dump.DumpSectionsOfParts | tools/dump_5th_fleet.py:246-297 | with the editor's regions and sixteen pairs read, the dump's base is the table offset plus 64 and each section holds the editor's entry data |
| Dump.DumpSectionsAgree | tools/dump_5th_fleet.py:269-297 | where the editor loads a file, the dump measures sixteen sections from `pointer_table_offset + 64`, each holding the loaded entry's data (see also editor/data.py:490-526) (about `MapFiles.LoadData`) |
| Dump.DumpShortTable | tools/dump_5th_fleet.py:246-269 | where the data cuts the pointer table short the editor raises, while the dump reports fewer than sixteen sections measured from a base below `pointer_table_offset + 64` (about `MapFiles.LoadData`) |
| Dump.FrameUnit | tools/dump_5th_fleet.py:325-349 | a frame yields a unit exactly when its template id indexes the kind's templates |
| Dump.DumpUnits | tools/dump_5th_fleet.py:324-349 | at most one unit per frame |
| Dump.ReadDumpUnits | tools/dump_5th_fleet.py:318-350 | the frame loop computes exactly the units of the chunk's whole frames |
| Dump.DumpUnitsSound | tools/dump_5th_fleet.py:324-349 | every unit decodes a frame whose template exists, its side is the owner byte's low two bits, and slots strictly increase |
| Dump.DumpUnitsComplete | tools/dump_5th_fleet.py:324-349 | every frame whose template exists yields a unit |
| LegacyScript.LegacyTokensWellFormed | decode_objectives.py:55 | the three difficulty strings, "Low", "Medium" and "High" each with its NUL, are well formed |
| LegacyScript.LegacyTokenStart | decode_objectives.py:58-62 | a start from the difficulty strings exists exactly when one of them occurs, and it lies just after a NUL |
| LegacyScript.LegacyFallback | decode_objectives.py:64-70 | the backward scan returns the position after the highest NUL followed by a non-NUL byte in its range, or none when no such NUL exists |
| LegacyScript.LegacyStartBounds | decode_objectives.py:54-70 | any start found lies in [1, len] just after a NUL; a fallback start lies inside the scanned window and begins a non-NUL byte (about `LegacyScript.LegacyStart`) |
| LegacyScript.FindStart | decode_objectives.py:54-70 | the two loops compute exactly the located start, -1 when none is found (about `LegacyScript.LegacyStart`) |
| LegacyScript.SplitWordZero | decode_objectives.py:80-85 | only a zero word splits into (0, 0) |
| LegacyScript.LegacyWordsAt | decode_objectives.py:79-86 | pair `k` is the nonzero word at offset `i + 2k`, below the limit, split into (high byte, low byte) (about `LegacyScript.LegacyWords`) |
| LegacyScript.LegacyWordsStop | decode_objectives.py:81-82 | reading stops before the limit only at a zero word (about `LegacyScript.LegacyWords`) |
| LegacyScript.WordLimit | decode_objectives.py:79 | the word limit `min(len(script_data) - 1, 32)` lies inside the script and is at most 32 |
| LegacyScript.ParseLegacySpec | decode_objectives.py:47-88 | `parse_scenario_script` gives at most sixteen nonzero pairs, none when no start is found or it lies in the last four bytes, pair `k` is the word at `start + 2k` split, and it stops early only at a zero word (about `LegacyScript.LegacyStart`, `LegacyScript.ParseLegacy`) |
| LegacyScript.WordsFromStart | decode_objectives.py:76-86 | the words read from the script start, stated over the whole block (about `LegacyScript.LegacyWords`) |
| LegacyScript.WordsStep | decode_objectives.py:79-86 | one nonzero word moves from the unread rest to the result (about `LegacyScript.LegacyWords`) |
| LegacyScript.ReadWords | decode_objectives.py:78-86 | the word loop computes exactly the pairs of the model (about `LegacyScript.LegacyWords`) |
| LegacyScript.ParseScenarioScript | decode_objectives.py:47-88 | the parser computes exactly the model's pairs (about `LegacyScript.ParseLegacy`) |
| LegacyScript.DecodeOpcode | decode_objectives.py:91-98 | the description is "Unknown opcode" exactly when the opcode is not in the opcode map (see also decode_objectives.py:15-44) |
| LegacyScript.LastParen | decode_objectives.py:91-98 | the last '(' below `n`, with none after it |
| LegacyScript.RecoverSplit | decode_objectives.py:96-98 | a text "NAME(INNER)" whose inner part has no '(' splits back into its name and inner text (about `LegacyScript.Recover`) |
| LegacyScript.LastParenAt | decode_objectives.py:96-98 | a '(' with none after it is the one the backward search finds |
| LegacyScript.OperandNoParen | decode_objectives.py:41-44 | an operand's text has no '(' (see also decode_objectives.py:95) |
| LegacyScript.OperandRecover | decode_objectives.py:41-44 | an operand's text reads back as the operand, after a mnemonic (with PROHIBITED and UNLIMITED) or after "OP_xx" (see also decode_objectives.py:95-98) |
| LegacyScript.MnemonicNotNumbered | decode_objectives.py:15-38 | no mnemonic has the "OP_xx" shape |
| LegacyScript.DecodeOpcodeRecover | decode_objectives.py:91-98 | the decoded text gives back its operand and its head, the mnemonic of a known opcode or the opcode itself for an unknown one, so distinct pairs with distinct mnemonics decode to distinct texts (about `LegacyScript.Recover`) |
| Gxl.AsciiOnly | editor/gxl.py:61 | decoding as ASCII while ignoring errors never lengthens the name |
| Gxl.AsciiOnlyAppend | editor/gxl.py:61 | the ASCII filter distributes over concatenation |
| Gxl.NameStart | editor/gxl.py:48-53 | the backward walk never passes the marker and, when it moves, never goes below the cursor |
| Gxl.NameStartSpec | editor/gxl.py:48-56 | a walk that ends within 20 bytes and above the cursor stops just after a NUL, with no NUL between it and the marker |
| Gxl.FindNameStart | editor/gxl.py:48-53 | the inner loop computes exactly the name start of the model |
| Gxl.LStripKeepsSuffix | editor/gxl.py:61 | stripping leading whitespace keeps a suffix that starts with a non-space byte |
| Gxl.SuffixNotWhitespace | editor/gxl.py:38-61 | ".PCX" neither starts nor ends with whitespace |
| Gxl.RStripKeeps | editor/gxl.py:61 | stripping trailing whitespace keeps a name that ends in a non-space byte |
| Gxl.AsciiOnlySuffix | editor/gxl.py:61 | ".PCX" survives the ASCII filter |
| Gxl.EntryNameEndsInPcx | editor/gxl.py:61-66 | the decoded, stripped name always ends in ".PCX", so the emptiness and length check that follows never rejects it (about `Gxl.EntryName`) |
| Gxl.EntryStep | editor/gxl.py:69-90 | after the marker, the cursor always moves past it |
| Gxl.MarkerStep | editor/gxl.py:48-90 | once a marker is found, the cursor always moves past it |
| Gxl.StepAt | editor/gxl.py:35-90 | every pass either ends the loop or moves the cursor forward, so the scan terminates |
| Gxl.EntryStepSound | editor/gxl.py:69-87 | an entry appended after the marker carries the decoded name, its offset and size are the u32s after the marker, and it passed the size, bounds and magic checks |
| Gxl.MarkerStepSound | editor/gxl.py:38-87 | an entry appended at a marker is valid |
| Gxl.WalkedName | editor/gxl.py:48-56 | a name start that passes the checks yields a name decoded from just after a NUL at most 20 bytes before the marker, with no NUL in between (about `Gxl.EntryName`) |
| Gxl.StepSound | editor/gxl.py:35-90 | an entry appended by any pass is valid |
| Gxl.ScanSound | editor/gxl.py:35-90 | every entry the scan returns has size in (0, 1,000,000], lies inside the archive, is the archive's bytes there starting with 0x0A, and has offset and size the u32s after a ".PCX\0" marker and a ".PCX" name decoded from just after a NUL at most 20 bytes before that marker, with no NUL in between (about `Gxl.ScanFrom`) |
| Gxl.LoadGxlSound | editor/gxl.py:20-92 | every entry `load_gxl_archive` returns is valid in that sense (about `Gxl.LoadGxl`) |
| Gxl.MissPastLimitStops | editor/gxl.py:39-43 | past position 10000 a miss ends the scan (about `Gxl.ScanFrom`) |
| Gxl.ScanStep | editor/gxl.py:35-90 | one unfolding of the loop (about `Gxl.ScanFrom`) |
| Gxl.ReadEntry | editor/gxl.py:69-90 | the loop body from `data_pos` on computes exactly the model's step |
| Gxl.AtMarker | editor/gxl.py:48-90 | the loop body at a marker computes exactly the model's step |
| Gxl.ScanOnce | editor/gxl.py:38-90 | one pass of the loop body computes exactly the model's step |
| Gxl.LoadGxlArchive | editor/gxl.py:20-92 | the loop computes exactly the model's entries, and each of them is valid (about `Gxl.LoadGxl`) |
| Icons.FlattenRows | editor/icons.py:146-155 | joining the rows gives back the pixel run: no pixel is lost, repeated or reordered (about `Icons.Rows`) |
| Icons.RowsShape | editor/icons.py:148-155 | a run fills ⌈len/width⌉ rows, every row but the last is full, and the last is non-empty (about `Icons.Rows`) |
| Icons.RowsIndex | editor/icons.py:148-155 | pixel `k` of the run lands in row `k // width`, column `k % width` (about `Icons.Rows`) |
| Icons.LastRowFullIff | editor/icons.py:148-155 | the last row is full exactly when the run length is a multiple of the width (about `Icons.Rows`) |
| Icons.RowsCons | editor/icons.py:148-155 | a run longer than one row starts with a full row (about `Icons.Rows`) |
| Icons.RowsSnoc | editor/icons.py:152-155 | adding one pixel either opens a new row or extends the last one (about `Icons.Rows`) |
| Icons.RowsFit | editor/icons.py:139-155 | a run of at most `width * height` pixels fills at most `height` rows of at most `width` (about `Icons.Rows`) |
| Icons.RowsCount | editor/icons.py:152-153 | the row of the next pixel already exists exactly when the last row is open (about `Icons.Rows`) |
| Icons.AppendPixel | editor/icons.py:148-155 | adding rows until row `pix_idx // width` exists, then appending, gives the rows of the run with the pixel added (about `Icons.Rows`) |
| Icons.Run | editor/icons.py:138-146 | pixel `k` is nibble `k + 1` of the data, high nibble first, so the first nibble is skipped |
| Icons.RunSnoc | editor/icons.py:146-157 | one more nibble appends one pixel |
| Icons.RunLength | editor/icons.py:138-162 | the decoder keeps at most `width * height` pixels, and no more than the data's nibbles after the first |
| Icons.DecodePixels | editor/icons.py:137-162 | the pixel loop gives exactly the rows of the pixel run (about `Icons.Rows`, `Icons.PixelRun`) |
| Icons.UnpackPack | editor/icons.py:118-123 | unpacking `height << 24 \| width << 16 \| size` gives back the three fields |
| Icons.ReadHeaderBytes | editor/icons.py:120-126 | in a complete header the size is the word at +8, width and height the bytes at +10 and +11, the background the low nibble of the byte at +12 (about `Icons.ReadHeader`) |
| Icons.PackedFields | editor/icons.py:120-123 | the packed u32 splits into its word and two bytes |
| Icons.LowNibble | editor/icons.py:124-126 | the background's low nibble is the first byte's |
| Icons.MarkersStep | editor/icons.py:111-113 | one signature found, the search resumes 4 bytes past it (see also editor/icons.py:175) (about `Icons.Markers`) |
| Icons.MicnNoOverlap | editor/icons.py:111 | two "MICN" signatures never overlap, so resuming 4 bytes on skips none (see also editor/icons.py:175) |
| Icons.MarkersExact | editor/icons.py:110-175 | the search finds every signature from its start on, in increasing order (about `Icons.Markers`) |
| Icons.IconsAtSnoc | editor/icons.py:164-174 | one more record appends its icon with the next index (about `Icons.DecodeIcon`) |
| Icons.LoadIconsSpec | editor/icons.py:96-177 | one icon per "MICN" signature in the file, in file order, numbered 0, 1, 2, … (about `Icons.LoadIcons`, `Icons.Markers`) |
| Icons.DecodedIconFits | editor/icons.py:137-162 | a decoded icon has at most `height` rows of at most `width` pixels (about `Icons.DecodeIcon`) |
| Icons.ReadIcon | editor/icons.py:120-172 | the header reads and the pixel loop compute exactly the decoded icon (about `Icons.DecodeIcon`) |
| Icons.LoadMiconIcons | editor/icons.py:96-177 | the signature loop computes exactly the icons of the model (about `Icons.LoadIcons`) |
| Icons.PixelColour | editor/icons.py:77-89 | a pixel is transparent exactly when its index is 0 |
| Icons.SideRecoloursBackgroundOnly | editor/icons.py:72-89 | a side recolours only the background index, which takes exactly the side's team colour; every other pixel keeps its palette colour (see also editor/icons.py:30-35) (about `Icons.SideColour`) |
| Icons.SidesDiffer | editor/icons.py:72-89 | two different sides render a pixel differently exactly when it is a non-transparent background pixel (see also editor/icons.py:30-35) (about `Icons.SideColour`) |
| Icons.RenderImage | editor/icons.py:48-90 | `render_image` at scale 1 gives a fresh width × height image whose pixel (x, y) is the colour of row y, column x of the icon (about `Icons.ImagePixel`) |
| Counters.StepAt | extract_counters.py:41-52 | every turn that does not end the loop moves the cursor forward and stays inside the blob |
| Counters.NameStep | extract_counters.py:45-52 | a name with its NUL never ends the loop |
| Counters.StepSpec | extract_counters.py:41-52 | the loop ends exactly when no NUL is left; the name runs to the first NUL; a pair is read exactly when the name ends in ".PCX", cut off (struct.error) when fewer than 8 bytes follow the NUL, and otherwise recorded under the stripped name with the two little-endian u32s after the NUL |
| Counters.ReadStep | extract_counters.py:42-52 | one turn of the loop body computes exactly the model's step |
| Counters.ReadName | extract_counters.py:45-51 | the suffix test and unpack compute exactly the model's step for that name |
| Counters.StrippedNameEndsInPcx | extract_counters.py:47-50 | a ".PCX" name still ends in ".PCX" once stripped |
| Counters.AllPcxCons | extract_counters.py:50 | prepending a ".PCX" entry keeps every name a ".PCX" name |
| Counters.EntriesSound | extract_counters.py:41-52 | every entry read names a ".PCX" resource (about `Counters.EntriesFrom`) |
| Counters.ApplyLast | extract_counters.py:50 | the last entry of a name decides its value in the dictionary |
| Counters.ApplyAbsent | extract_counters.py:50 | a name no entry carries keeps what it had |
| Counters.ApplyKeys | extract_counters.py:50 | the dictionary holds exactly the names it held and the entries' names |
| Counters.ResourceTableSpec | extract_counters.py:30-54 | the loaded table holds exactly the names the entries carry, each ending in ".PCX" (about `Counters.ResourceTable`, `Counters.EntriesFrom`) |
| Counters.ResourceTableLast | extract_counters.py:30-54 | a name's value is the (offset, length) of its last entry (about `Counters.ResourceTable`, `Counters.EntriesFrom`) |
| Counters.EntriesStep | extract_counters.py:41-52 | one turn of the loop: no NUL returns the table, a cut-off pair raises, a non-".PCX" name is skipped, a ".PCX" name is recorded |
| Counters.LoadResourceTable | extract_counters.py:30-54 | the loop computes exactly the resource table, or struct.error (about `Counters.ResourceTable`) |
| Counters.TileAt | extract_counters.py:82-84 | tile (row, col) has a 32 × 32 box |
| Counters.RowTiles | extract_counters.py:81-84 | one tile per column |
| Counters.NonBlank | extract_counters.py:88-89 | skipping blank tiles never adds one |
| Counters.GridSpec | extract_counters.py:73-84 | the grid holds `rows * cols` tiles, each (row, col) below (rows, cols) at its 32 × 32 box, in row-major order (about `Counters.Grid`) |
| Counters.GridComplete | extract_counters.py:80-84 | every (row, col) of the grid has its tile in it (about `Counters.Grid`) |
| Counters.SheetBoxes | extract_counters.py:73-84 | every box lies inside the sheet and the boxes of different tiles do not overlap (about `Counters.SheetGrid`) |
| Counters.NonBlankAppend | extract_counters.py:80-93 | skipping distributes over the grid's rows |
| Counters.NonBlankSpec | extract_counters.py:88-89 | the tiles kept are exactly the grid's tiles with content |
| Counters.SliceTiles | extract_counters.py:71-95 | `slice_tiles` saves exactly the non-blank tiles of the sheet's grid in row-major order, and the counter is their number (about `Counters.SheetGrid`) |
| Counters.SliceRow | extract_counters.py:81-93 | the inner loop saves the non-blank tiles of one row, left to right |

## Left out

- The Tkinter user interface of `scenario_editor.py` (widgets, dialogs, list handlers, region graphics and objective text rendering). The script edits that the buttons perform are modelled.
- File I/O. `read_bytes`/`write_bytes` become byte-sequence inputs and outputs. The "no path supplied" error of `MapFile.save` and `ScenarioFile.save` is not modelled.
- `load_template_library` (`editor/data.py:670-698`) reads template files from disk. Its result is an input map from unit kind to each template's icon, and it only sets `template_icon`.
- The `difficulty_token`/`scenario_key` regex sniffing of `parse_scenario_block` (`editor/data.py:237-255`). These are labels with no part in the byte layout.
- Text encodings:
  - Decoding uses latin-1, which is one-to-one on bytes, so `errors="replace"` never applies.
  - Encoding cannot meet a character above 0xFF, because the model keeps text as bytes.
- Bytes.Upper: `str.upper()` and `str.isupper()` are modelled for ASCII letters only. Python also treats most non-ASCII latin-1 letters (such as 0xC0–0xDE and 0xE0–0xFE) as cased and maps them, which the model does not.
- Units.UnitTable.AddUnit: the unit is a value (`UnitRecord` is a datatype). The source sets `slot` on the caller's own object, and the model appends a copy with that slot, so aliasing of that object is not captured.
- MapObjects.MapFile.Load: `unit_tables` is a dictionary keyed by kind in the source. Here it is the sequence of the tables of entries 5, 8 and 11, in that order, each sharing its pointer-entry object as the source does.
- MapFiles.LeastAboveSpec: the sorted list of absolute starts and its forward scan are modelled as "the least start strictly above", which gives the same extent.
- LegacyScript.DecodeOpcode: the `OPCODE_MAP` descriptions are static text. The model returns the opcode in their place, and "Unknown opcode" for the rest.
- The rest of `tools/dump_5th_fleet.py`: scenario-record parsing, region-name collection, the ASCII-sequence and `ascii_ratio` classification, the pointer-list heuristic, Counter summaries, JSON/text output and `main`. These are float heuristics and reporting.
- The reports of `decode_objectives.py`: `decode_script`, `load_all_scenarios`, the usage statistics and `main`. These are text output over the modelled parser.
- Icons.RenderImage:
  - Only scale 1 is modelled. The nearest-neighbour `resize` (PIL) that `scale > 1` applies is left out.
  - An empty palette makes the source raise (modulo by zero) as soon as a pixel reaches the palette lookup. The only caller (`scenario_editor.py:2879`) passes the 16-colour default, so the model requires a non-empty palette.
  - A `putpixel` outside the image makes the source raise, so the model requires an icon whose rows fit its size. `DecodedIconFits` proves that every decoded icon does.
- `extract_trm_sheet` in `extract_counters.py` opens a PIL image and writes a file. The lookup of `TRM     .PCX` it performs is the modelled resource table.
- Counters.SliceTiles: pixels are not modelled. The `blank` parameter says which tiles `getbbox()` finds empty. Saving each tile as a PNG and the final `print` are left out.
- Other scripts are not part of this model: `analyze_*.py`, `check_*.py`, `investigate_special_scenarios.py`, `ultrathink_scenarios.py`, `extract_narrative.py`, `deep_analysis.py`, `test_*.py`, `operand_lookup_table.py` and the rest of `tools/`. They read game files and print reports, and their parsing is one of the modelled modules.
