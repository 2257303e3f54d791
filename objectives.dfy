/** The objective script embedded in a scenario's trailing bytes (editor/objectives.py):
    where it starts, which bytes it occupies, and how its little-endian words decode into
    (opcode, operand) pairs. */
module Objectives {
  import opened Bytes

  /** One decoded script word: (opcode, operand) = (high byte, low byte). */
  type Pair = (byte, byte)

  const MaxScriptWords: nat := 64

  /** The six difficulty strings, each with its NUL terminator, in the order they are tried:
      "ELow", "EMedium", "EHigh", "Low", "Medium", "High". */
  const DifficultyTokens: seq<seq<byte>> := [
    [69, 76, 111, 119, 0], [69, 77, 101, 100, 105, 117, 109, 0], [69, 72, 105, 103, 104, 0],
    [76, 111, 119, 0], [77, 101, 100, 105, 117, 109, 0], [72, 105, 103, 104, 0]
  ]

  /** A token is non-empty, ends in a NUL and has no other NUL. */
  predicate WellFormedToken(t: seq<byte>)
  {
    |t| > 0 && t[|t| - 1] == 0 && forall i :: 0 <= i < |t| - 1 ==> t[i] != 0
  }

  lemma DifficultyTokensWellFormed()
    ensures |DifficultyTokens| == 6
    ensures forall k :: 0 <= k < 6 ==> WellFormedToken(DifficultyTokens[k])
  {
  }

  /** The position in `tokens` of the first token that occurs anywhere in `blob`. */
  function FirstPresent(blob: seq<byte>, tokens: seq<seq<byte>>): (r: Option<nat>)
    requires forall k :: 0 <= k < |tokens| ==> |tokens[k]| > 0
    ensures r.Some? ==> r.value < |tokens| && Contains(blob, tokens[r.value])
    ensures r.Some? ==> forall j :: 0 <= j < r.value ==> !Contains(blob, tokens[j])
    ensures r.None? ==> forall j :: 0 <= j < |tokens| ==> !Contains(blob, tokens[j])
  {
    if tokens == [] then None
    else
      RFindContains(blob, tokens[0]);
      if RFind(blob, tokens[0]).Some? then Some(0)
      else
        var later := FirstPresent(blob, tokens[1..]);
        if later.None? then None else Some(later.value + 1)
  }

  /** The script start given by the difficulty tokens: just past the last occurrence of the
      first token present. */
  function TokenStart(blob: seq<byte>): (r: Option<nat>)
    ensures r.Some? <==> FirstPresent(blob, DifficultyTokens).Some?
    ensures r.Some? ==>
              var t := DifficultyTokens[FirstPresent(blob, DifficultyTokens).value];
              RFind(blob, t).Some? && r.value == RFind(blob, t).value + |t|
  {
    DifficultyTokensWellFormed();
    match FirstPresent(blob, DifficultyTokens)
    case None => None
    case Some(k) =>
      var t := DifficultyTokens[k];
      assert RFind(blob, t).Some? by {
        var i :| 0 <= i <= |blob| && IsAt(blob, t, i);
      }
      Some(RFind(blob, t).value + |t|)
  }

  /** A NUL immediately followed by a printable byte at position `i`. */
  predicate PrintableAfterNul(blob: seq<byte>, i: nat)
    requires i + 1 < |blob|
  {
    blob[i] == 0 && blob[i + 1] >= 0x20
  }

  /** The lower end of the fallback search: the last 200 bytes. */
  function SearchFloor(n: nat): nat
  {
    if n >= 200 then n - 200 else 0
  }

  /** Scan positions `i`, `i - 1`, …, `floor` for a NUL followed by a printable byte and
      return the position after it. */
  function FallbackStart(blob: seq<byte>, i: int, floor: nat): (r: Option<nat>)
    requires i + 1 < |blob|
    ensures r.Some? ==> floor + 1 <= r.value <= i + 1 && PrintableAfterNul(blob, r.value - 1)
    ensures r.Some? ==> forall j :: r.value <= j <= i ==> !PrintableAfterNul(blob, j)
    ensures r.None? ==> forall j :: floor <= j <= i ==> !PrintableAfterNul(blob, j)
    decreases i - floor + 1
  {
    if i < floor then None
    else if PrintableAfterNul(blob, i) then Some(i + 1)
    else FallbackStart(blob, i - 1, floor)
  }

  /** `_locate_script_start`. */
  function LocateScriptStart(blob: seq<byte>): Option<nat>
  {
    if blob == [] then None
    else if TokenStart(blob).Some? then TokenStart(blob)
    else FallbackStart(blob, |blob| - 2, SearchFloor(|blob|))
  }

  /** Every start found, by a token or by the fallback, lies in [1, |blob|] right after a
      NUL; a fallback start lies within the last 200 bytes, before a printable byte, and
      is the last such position. */
  lemma LocateScriptStartBounds(blob: seq<byte>)
    ensures var r := LocateScriptStart(blob);
            r.Some? ==> 1 <= r.value <= |blob| && blob[r.value - 1] == 0
    ensures var r := LocateScriptStart(blob);
            r.Some? && TokenStart(blob).None? ==>
              SearchFloor(|blob|) < r.value < |blob| && blob[r.value] >= 0x20
              && forall j :: r.value <= j < |blob| - 1 ==> !PrintableAfterNul(blob, j)
  {
    var r := LocateScriptStart(blob);
    if r.Some? && TokenStart(blob).Some? {
      DifficultyTokensWellFormed();
      var k := FirstPresent(blob, DifficultyTokens).value;
      var t := DifficultyTokens[k];
      var p := RFind(blob, t).value;
      assert blob[p..p + |t|][|t| - 1] == t[|t| - 1] == 0;
    }
  }

  /** `objective_script_bytes`: the suffix of the blob from the script start on, empty when
      there is no start or it lies at the end. */
  function ScriptBytes(blob: seq<byte>): (r: seq<byte>)
    ensures |r| <= |blob| && r == blob[|blob| - |r|..]
  {
    match LocateScriptStart(blob)
    case None => []
    case Some(start) => if start >= |blob| then [] else blob[start..]
  }

  function SplitWord(w: u16): Pair
  {
    (HighByte(w), LowByte(w))
  }

  /** The word a pair is stored as: `(opcode << 8) | operand`. */
  function PairWord(p: Pair): u16
  {
    p.0 * 0x100 + p.1
  }

  lemma SplitPairWord(p: Pair)
    ensures SplitWord(PairWord(p)) == p
  {
  }

  const ZeroPair: Pair := (0, 0)

  /** No two neighbouring pairs are both (0, 0). */
  ghost predicate NoAdjacentZeros(s: seq<Pair>)
  {
    forall i, j :: 0 <= i < j < |s| && j == i + 1 ==> !(s[i] == ZeroPair && s[j] == ZeroPair)
  }

  /** Decode words until the second of two consecutive zero words (`prevZero` says whether
      the word before `ws` was zero). */
  function ScanWords(ws: seq<u16>, prevZero: bool): (r: seq<Pair>)
    ensures |r| <= |ws|
  {
    if ws == [] then []
    else if ws[0] == 0 && prevZero then []
    else [SplitWord(ws[0])] + ScanWords(ws[1..], ws[0] == 0)
  }

  /** Each decoded pair is its word split into (high byte, low byte). */
  lemma {:induction false} ScanWordsPairs(ws: seq<u16>, prevZero: bool)
    ensures var r := ScanWords(ws, prevZero);
            forall i :: 0 <= i < |r| ==> r[i] == SplitWord(ws[i])
  {
    if ws != [] && !(ws[0] == 0 && prevZero) {
      ScanWordsPairs(ws[1..], ws[0] == 0);
    }
  }

  /** No two adjacent decoded pairs are (0, 0), and none starts the result after a zero word. */
  lemma {:induction false} ScanWordsNoAdjacentZeros(ws: seq<u16>, prevZero: bool)
    ensures NoAdjacentZeros(ScanWords(ws, prevZero))
    ensures prevZero && ScanWords(ws, prevZero) != [] ==> ScanWords(ws, prevZero)[0] != ZeroPair
  {
    if ws != [] && !(ws[0] == 0 && prevZero) {
      ScanWordsNoAdjacentZeros(ws[1..], ws[0] == 0);
      ScanWordsPairs(ws, prevZero);
      var r := ScanWords(ws, prevZero);
      var t := ScanWords(ws[1..], ws[0] == 0);
      assert r == [SplitWord(ws[0])] + t;
      forall i, j | 0 <= i < j < |r| && j == i + 1
        ensures !(r[i] == ZeroPair && r[j] == ZeroPair)
      {
        if i > 0 {
          assert r[i] == t[i - 1] && r[j] == t[j - 1];
        }
      }
    }
  }

  /** Decoding stops before the end of the words only at a zero word that follows another
      zero word (or the zero word before `ws`). */
  lemma {:induction false} ScanWordsStop(ws: seq<u16>, prevZero: bool)
    ensures var r := ScanWords(ws, prevZero);
            |r| < |ws| ==> ws[|r|] == 0 && (if |r| == 0 then prevZero else ws[|r| - 1] == 0)
  {
    if ws != [] && !(ws[0] == 0 && prevZero) {
      ScanWordsStop(ws[1..], ws[0] == 0);
    }
  }

  /** Words with no two adjacent zeros decode in full. */
  lemma {:induction false} ScanWordsAll(ws: seq<u16>, prevZero: bool)
    requires forall i, j :: 0 <= i < j < |ws| && j == i + 1 ==> !(ws[i] == 0 && ws[j] == 0)
    requires prevZero ==> ws == [] || ws[0] != 0
    ensures ScanWords(ws, prevZero) == seq(|ws|, i requires 0 <= i < |ws| => SplitWord(ws[i]))
  {
    if ws != [] {
      ScanWordsAll(ws[1..], ws[0] == 0);
    }
  }

  /** The script bytes with an odd final byte dropped and cut to the 64-word cap. */
  function Window(data: seq<byte>): (w: seq<byte>)
    ensures |w| % 2 == 0 && |w| <= 2 * MaxScriptWords && |w| <= |data|
    ensures w == data[..|w|]
  {
    if |data| < 2 then []
    else
      var even := |data| - |data| % 2;
      var limit := if even < 2 * MaxScriptWords then even else 2 * MaxScriptWords;
      data[..limit]
  }

  /** The pairs decoded from the script bytes. */
  function DecodeScriptData(data: seq<byte>): seq<Pair>
  {
    ScanWords(UnpackWords(Window(data)), false)
  }

  /** `parse_objective_script`, as a function of the blob. */
  function ParseScript(blob: seq<byte>): seq<Pair>
  {
    DecodeScriptData(ScriptBytes(blob))
  }

  /** A word of the window is the word at the same offset of the script bytes. */
  lemma WindowWordAt(data: seq<byte>, k: nat)
    requires k + 2 <= |Window(data)|
    ensures WordAt(Window(data), k) == WordAt(data, k)
  {
    var w := Window(data);
    assert w[k] == data[k] && w[k + 1] == data[k + 1];
  }

  /** At most 64 pairs, none when fewer than two script bytes exist (an odd final byte is
      ignored), and pair i is the word at script offset 2i split into (high byte, low byte). */
  lemma DecodeScriptWords(data: seq<byte>)
    ensures |DecodeScriptData(data)| <= MaxScriptWords
    ensures |data| < 2 ==> DecodeScriptData(data) == []
    ensures forall i :: 0 <= i < |DecodeScriptData(data)| ==>
              2 * i + 2 <= |data| && DecodeScriptData(data)[i] == SplitWord(WordAt(data, 2 * i))
  {
    var w := Window(data);
    var ws := UnpackWords(w);
    ScanWordsPairs(ws, false);
    forall i | 0 <= i < |DecodeScriptData(data)|
      ensures 2 * i + 2 <= |data| && DecodeScriptData(data)[i] == SplitWord(WordAt(data, 2 * i))
    {
      UnpackWordsAt(w, i);
      WindowWordAt(data, 2 * i);
    }
  }

  /** Two adjacent (0, 0) pairs never appear (a single zero word is kept). */
  lemma DecodeScriptNoAdjacentZeros(data: seq<byte>)
    ensures NoAdjacentZeros(DecodeScriptData(data))
  {
    ScanWordsNoAdjacentZeros(UnpackWords(Window(data)), false);
  }

  /** Decoding ends before the window does only at the second of two consecutive zero
      words, which is not included: the last pair kept is (0, 0). */
  lemma DecodeScriptTermination(data: seq<byte>)
    ensures var r := DecodeScriptData(data);
            2 * |r| < |Window(data)| ==>
              |r| >= 1 && r[|r| - 1] == ZeroPair && WordAt(data, 2 * |r|) == 0
  {
    var w := Window(data);
    var ws := UnpackWords(w);
    var r := ScanWords(ws, false);
    ScanWordsStop(ws, false);
    ScanWordsPairs(ws, false);
    if 2 * |r| < |w| {
      assert |r| < |ws|;
      UnpackWordsAt(w, |r|);
      WindowWordAt(data, 2 * |r|);
    }
  }

  /** One step of the scan from word `k` on. */
  lemma ScanWordsFrom(ws: seq<u16>, k: nat, prevZero: bool)
    requires k < |ws|
    ensures ScanWords(ws[k..], prevZero) ==
            if ws[k] == 0 && prevZero then []
            else [SplitWord(ws[k])] + ScanWords(ws[k + 1..], ws[k] == 0)
  {
    assert ws[k..][0] == ws[k] && ws[k..][1..] == ws[k + 1..];
  }

  /** The word the decoding loop reads at offset 2k of the evened data is word k of the
      window. */
  lemma LoopWord(data: seq<byte>, even: seq<byte>, k: nat)
    requires 2 * k + 2 <= |Window(data)| && 2 * k + 2 <= |even| <= |data| && even == data[..|even|]
    ensures WordAt(even, 2 * k) == UnpackWords(Window(data))[k]
  {
    UnpackWordsAt(Window(data), k);
    WindowWordAt(data, 2 * k);
  }

  /** The scan invariant of the decoding loop across one word: a second zero word ends the
      scan, any other word is decoded and appended. */
  lemma ScanStep(ws: seq<u16>, script: seq<Pair>, k: nat, prevZero: bool)
    requires k < |ws| && ScanWords(ws, false) == script + ScanWords(ws[k..], prevZero)
    ensures ws[k] == 0 && prevZero ==> ScanWords(ws, false) == script
    ensures !(ws[k] == 0 && prevZero) ==>
              ScanWords(ws, false) == (script + [SplitWord(ws[k])]) + ScanWords(ws[k + 1..], ws[k] == 0)
  {
    ScanWordsFrom(ws, k, prevZero);
    AppendNil(script);
    AppendAssoc3(script, [SplitWord(ws[k])], ScanWords(ws[k + 1..], ws[k] == 0));
  }

  /** The window the decoding loop reads: the data with an odd last byte dropped, up to
      the word cap, holding `limit / 2` words. */
  lemma WindowLimit(data: seq<byte>, even: seq<byte>, limit: nat)
    requires |data| >= 2
    requires even == (if |data| % 2 == 1 then data[..|data| - 1] else data)
    requires limit == if |even| < 2 * MaxScriptWords then |even| else 2 * MaxScriptWords
    ensures |Window(data)| == limit <= |even| <= |data| && even == data[..|even|]
    ensures limit % 2 == 0 && |UnpackWords(Window(data))| == limit / 2
  {
  }

  /** The decoding loop of `parse_objective_script`: words are read two bytes at a time up to
      the cap and stop at the second of two consecutive zero words. */
  method DecodeScriptWordsLoop(data: seq<byte>) returns (script: seq<Pair>)
    ensures script == DecodeScriptData(data)
  {
    ghost var window := Window(data);
    ghost var ws := UnpackWords(window);
    if |data| < 2 {
      return [];
    }
    var even := data;
    if |even| % 2 == 1 {
      even := even[..|even| - 1];
    }
    var limit := if |even| < 2 * MaxScriptWords then |even| else 2 * MaxScriptWords;
    WindowLimit(data, even, limit);
    script := [];
    var consecutiveZeros := 0;
    var offset := 0;
    ghost var k := 0;
    while offset < limit
      invariant offset == 2 * k && offset <= limit
      invariant consecutiveZeros <= 1
      invariant ScanWords(ws, false) == script + ScanWords(ws[k..], consecutiveZeros == 1)
      decreases limit - offset
    {
      var word := WordAt(even, offset);
      LoopWord(data, even, k);
      ScanStep(ws, script, k, consecutiveZeros == 1);
      if word == 0 {
        consecutiveZeros := consecutiveZeros + 1;
        if consecutiveZeros >= 2 {
          break;
        }
      } else {
        consecutiveZeros := 0;
      }
      script := script + [SplitWord(word)];
      offset := offset + 2;
      k := k + 1;
    }
    if offset >= limit {
      assert ws[k..] == [];
      AppendNil(script);
    }
  }
}
