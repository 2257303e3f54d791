/** The first objective-script decoder (decode_objectives.py): it locates the script after
    the last plain difficulty string of a scenario block (or by a backward scan), reads at
    most sixteen little-endian words up to the first zero word, and renders each
    (opcode, operand) pair as text. */
module LegacyScript {
  import opened Bytes
  import Objectives

  type Pair = Objectives.Pair

  // ---------------------------------------------------------------------------
  // Locating the script

  /** "Low", "Medium" and "High", each with its NUL, in the order they are tried: the last
      three of the editor's difficulty tokens. */
  const LegacyTokens: seq<seq<byte>> := Objectives.DifficultyTokens[3..]

  lemma LegacyTokensWellFormed()
    ensures |LegacyTokens| == 3
    ensures forall k :: 0 <= k < 3 ==> Objectives.WellFormedToken(LegacyTokens[k])
  {
    Objectives.DifficultyTokensWellFormed();
    assert forall k :: 0 <= k < 3 ==> LegacyTokens[k] == Objectives.DifficultyTokens[k + 3];
  }

  /** The start given by a difficulty string: just past the last occurrence of the first
      of "Low", "Medium", "High" that occurs. */
  function LegacyTokenStart(blob: seq<byte>): (r: Option<nat>)
    ensures r.Some? <==> exists k :: 0 <= k < 3 && Contains(blob, LegacyTokens[k])
    ensures r.Some? ==> 1 <= r.value <= |blob| && blob[r.value - 1] == 0
  {
    LegacyTokensWellFormed();
    match Objectives.FirstPresent(blob, LegacyTokens)
    case None => None
    case Some(k) =>
      var t := LegacyTokens[k];
      RFindContains(blob, t);
      var p := RFind(blob, t).value;
      assert blob[p..p + |t|][|t| - 1] == t[|t| - 1] == 0;
      Some(p + |t|)
  }

  /** A NUL followed by a byte that is not NUL, at position `i`. */
  predicate NulBeforeText(blob: seq<byte>, i: nat)
    requires i + 1 < |blob|
  {
    blob[i] == 0 && blob[i + 1] != 0
  }

  /** The backward scan over `i`, `i - 1`, …, down to but excluding `floor`, for a NUL
      followed by a non-NUL byte: the position after that NUL. */
  function LegacyFallback(blob: seq<byte>, i: int, floor: nat): (r: Option<nat>)
    requires i + 1 < |blob|
    ensures r.Some? ==> floor + 1 < r.value <= i + 1 && NulBeforeText(blob, r.value - 1)
    ensures r.Some? ==> forall j :: r.value <= j <= i ==> !NulBeforeText(blob, j)
    ensures r.None? ==> forall j :: floor < j <= i ==> !NulBeforeText(blob, j)
    decreases i - floor
  {
    if i <= floor then None
    else if NulBeforeText(blob, i) then Some(i + 1)
    else LegacyFallback(blob, i - 1, floor)
  }

  /** The script start of `parse_scenario_script`: a difficulty string, or else the scan
      from 50 bytes before the end back to the last 200 bytes. */
  function LegacyStart(blob: seq<byte>): (r: Option<nat>)
  {
    if LegacyTokenStart(blob).Some? then LegacyTokenStart(blob)
    else LegacyFallback(blob, |blob| - 50, Objectives.SearchFloor(|blob|))
  }

  /** Any start lies in [1, |blob|] right after a NUL; one found by the scan lies within
      the last 200 bytes, no later than 49 bytes before the end, and before a non-NUL
      byte. */
  lemma LegacyStartBounds(blob: seq<byte>)
    ensures var r := LegacyStart(blob);
            r.Some? ==> 1 <= r.value <= |blob| && blob[r.value - 1] == 0
    ensures var r := LegacyStart(blob);
            r.Some? && LegacyTokenStart(blob).None? ==>
              Objectives.SearchFloor(|blob|) + 1 < r.value <= |blob| - 49 && blob[r.value] != 0
  {
  }

  /** The loop over the three strings, then the backward scan: -1 when neither finds a
      start. */
  method FindStart(blob: seq<byte>) returns (start: int)
    ensures start == match LegacyStart(blob) case None => -1 case Some(s) => s
  {
    LegacyTokensWellFormed();
    start := -1;
    var k := 0;
    while k < |LegacyTokens|
      invariant 0 <= k <= |LegacyTokens|
      invariant forall j :: 0 <= j < k ==> !Contains(blob, LegacyTokens[j])
    {
      var pattern := LegacyTokens[k];
      RFindContains(blob, pattern);
      var idx := RFind(blob, pattern);
      if idx.Some? {
        assert Objectives.FirstPresent(blob, LegacyTokens) == Some(k);
        return idx.value + |pattern|;
      }
      k := k + 1;
    }
    var floor := Objectives.SearchFloor(|blob|);
    var i := |blob| - 50;
    while i > floor
      invariant i <= |blob| - 50
      invariant LegacyFallback(blob, |blob| - 50, floor) == LegacyFallback(blob, i, floor)
      decreases i - floor
    {
      if blob[i] == 0 && blob[i + 1] != 0 {
        return i + 1;
      }
      i := i - 1;
    }
  }

  // ---------------------------------------------------------------------------
  // Reading the words

  /** The pairs read from script offset `i` on, two bytes at a time while the offset is
      below `limit`, up to the first zero word (not included). */
  function LegacyWords(script: seq<byte>, i: nat, limit: nat): (r: seq<Pair>)
    requires limit < |script|
    decreases limit - i
  {
    if i >= limit then []
    else if WordAt(script, i) == 0 then []
    else [Objectives.SplitWord(WordAt(script, i))] + LegacyWords(script, i + 2, limit)
  }

  /** Only a zero word splits into (0, 0). */
  lemma SplitWordZero(w: u16)
    ensures Objectives.SplitWord(w) == Objectives.ZeroPair <==> w == 0
  {
  }

  /** Pair `k` is the word at offset `i + 2k`, below `limit`, split into (high byte, low
      byte), and that word is not zero. */
  lemma {:induction false} LegacyWordsAt(script: seq<byte>, i: nat, limit: nat)
    requires limit < |script|
    ensures forall k :: 0 <= k < |LegacyWords(script, i, limit)| ==>
              i + 2 * k < limit && WordAt(script, i + 2 * k) != 0
              && LegacyWords(script, i, limit)[k] == Objectives.SplitWord(WordAt(script, i + 2 * k))
    decreases limit - i
  {
    if i < limit && WordAt(script, i) != 0 {
      LegacyWordsAt(script, i + 2, limit);
      var rest := LegacyWords(script, i + 2, limit);
      var r := LegacyWords(script, i, limit);
      assert r == [Objectives.SplitWord(WordAt(script, i))] + rest;
      forall k | 1 <= k < |r|
        ensures r[k] == rest[k - 1] && i + 2 * k == (i + 2) + 2 * (k - 1)
      {
      }
    }
  }

  /** Reading stops before `limit` only at a zero word. */
  lemma {:induction false} LegacyWordsStop(script: seq<byte>, i: nat, limit: nat)
    requires limit < |script|
    ensures i + 2 * |LegacyWords(script, i, limit)| < limit ==> WordAt(script, i + 2 * |LegacyWords(script, i, limit)|) == 0
    decreases limit - i
  {
    if i < limit && WordAt(script, i) != 0 {
      LegacyWordsStop(script, i + 2, limit);
    }
  }

  /** The word limit: `min(len(script_data) - 1, 32)`. */
  function WordLimit(script: seq<byte>): (limit: nat)
    requires |script| >= 1
    ensures limit < |script| && limit <= 32
  {
    if |script| - 1 < 32 then |script| - 1 else 32
  }

  /** `parse_scenario_script`: no pairs without a start or when the start lies within the
      last four bytes; otherwise the words read from the start. */
  function ParseLegacy(blob: seq<byte>): (r: seq<Pair>)
  {
    match LegacyStart(blob)
    case None => []
    case Some(s) =>
      if s >= |blob| - 4 then [] else LegacyWords(blob[s..], 0, WordLimit(blob[s..]))
  }

  /** At most sixteen pairs, never (0, 0); pair `k` is the word at `start + 2k`; reading
      stops before the word limit only at a zero word; and the result is empty without a
      start or with one in the last four bytes. */
  lemma ParseLegacySpec(blob: seq<byte>)
    ensures |ParseLegacy(blob)| <= 16
    ensures forall k :: 0 <= k < |ParseLegacy(blob)| ==> ParseLegacy(blob)[k] != Objectives.ZeroPair
    ensures LegacyStart(blob).None? ==> ParseLegacy(blob) == []
    ensures LegacyStart(blob).Some? && LegacyStart(blob).value >= |blob| - 4 ==> ParseLegacy(blob) == []
    ensures ParseLegacy(blob) != [] ==>
              var s := LegacyStart(blob).value;
              forall k :: 0 <= k < |ParseLegacy(blob)| ==>
                s + 2 * k + 2 <= |blob| && ParseLegacy(blob)[k] == Objectives.SplitWord(WordAt(blob, s + 2 * k))
    ensures LegacyStart(blob).Some? && LegacyStart(blob).value < |blob| - 4 ==>
              var s := LegacyStart(blob).value;
              2 * |ParseLegacy(blob)| < WordLimit(blob[s..]) ==>
                s + 2 * |ParseLegacy(blob)| + 2 <= |blob| && WordAt(blob, s + 2 * |ParseLegacy(blob)|) == 0
  {
    match LegacyStart(blob)
    case None =>
    case Some(s) =>
      if s < |blob| - 4 {
        assert ParseLegacy(blob) == LegacyWords(blob[s..], 0, WordLimit(blob[s..]));
        WordsFromStart(blob, s);
      }
  }

  /** The words read from script start `s`, in terms of the whole blob. */
  lemma WordsFromStart(blob: seq<byte>, s: nat)
    requires s < |blob| - 4
    ensures var r := LegacyWords(blob[s..], 0, WordLimit(blob[s..]));
            |r| <= 16
            && forall k :: 0 <= k < |r| ==>
                 r[k] != Objectives.ZeroPair && s + 2 * k + 2 <= |blob|
                 && r[k] == Objectives.SplitWord(WordAt(blob, s + 2 * k))
    ensures var r := LegacyWords(blob[s..], 0, WordLimit(blob[s..]));
            2 * |r| < WordLimit(blob[s..]) ==> s + 2 * |r| + 2 <= |blob| && WordAt(blob, s + 2 * |r|) == 0
  {
    var script := blob[s..];
    var r := LegacyWords(script, 0, WordLimit(script));
    LegacyWordsAt(script, 0, WordLimit(script));
    LegacyWordsStop(script, 0, WordLimit(script));
    if r != [] {
      assert 2 * (|r| - 1) < WordLimit(script);
    }
    forall k | 0 <= k <= |r| && 2 * k < WordLimit(script)
      ensures s + 2 * k + 2 <= |blob| && WordAt(script, 2 * k) == WordAt(blob, s + 2 * k)
    {
      assert script[2 * k] == blob[s + 2 * k] && script[2 * k + 1] == blob[s + 2 * k + 1];
    }
    forall k | 0 <= k < |r|
      ensures r[k] != Objectives.ZeroPair
    {
      SplitWordZero(WordAt(script, 2 * k));
    }
  }

  /** One nonzero word read by the loop moves from the rest to the result. */
  lemma WordsStep(script: seq<byte>, opcodes: seq<Pair>, i: nat, limit: nat)
    requires i < limit < |script| && WordAt(script, i) != 0
    ensures opcodes + LegacyWords(script, i, limit)
            == (opcodes + [Objectives.SplitWord(WordAt(script, i))]) + LegacyWords(script, i + 2, limit)
  {
    AppendAssoc3(opcodes, [Objectives.SplitWord(WordAt(script, i))], LegacyWords(script, i + 2, limit));
  }

  /** The word loop: `for i in range(0, limit, 2)`, breaking at a zero word. */
  method ReadWords(script: seq<byte>) returns (opcodes: seq<Pair>)
    requires |script| >= 1
    ensures opcodes == LegacyWords(script, 0, WordLimit(script))
  {
    var limit := if |script| - 1 < 32 then |script| - 1 else 32;
    opcodes := [];
    var i := 0;
    while i < limit
      invariant LegacyWords(script, 0, limit) == opcodes + LegacyWords(script, i, limit)
      decreases limit - i
    {
      var word := WordAt(script, i);
      if word == 0 {
        break;
      }
      var pair := (HighByte(word), LowByte(word));
      WordsStep(script, opcodes, i, limit);
      opcodes := opcodes + [pair];
      i := i + 2;
    }
  }

  /** `parse_scenario_script`, step by step. */
  method ParseScenarioScript(blob: seq<byte>) returns (opcodes: seq<Pair>)
    ensures opcodes == ParseLegacy(blob)
  {
    var scriptStart := FindStart(blob);
    if scriptStart == -1 || scriptStart >= |blob| - 4 {
      return [];
    }
    opcodes := ReadWords(blob[scriptStart..]);
  }

  // ---------------------------------------------------------------------------
  // decode_opcode

  /** The mnemonics of `OPCODE_MAP` (its descriptions are static text and are not modelled). */
  const Mnemonics: map<byte, string> := map[
    0x00 := "END", 0x01 := "TURNS", 0x03 := "SCORE", 0x04 := "CONVOY_RULE",
    0x05 := "SPECIAL_RULE", 0x06 := "SHIP_DEST", 0x09 := "ZONE_CONTROL",
    0x0a := "ZONE_CHECK", 0x0c := "TASK_FORCE", 0x0e := "BASE_RULE",
    0x13 := "PORT_RESTRICT", 0x18 := "CONVOY_PORT", 0x1d := "SHIP_OBJECTIVE",
    0x29 := "REGION_RULE", 0x2d := "ALT_TURNS", 0x3a := "CONVOY_FALLBACK",
    0x3c := "DELIVERY_CHECK", 0x3d := "PORT_LIST", 0x41 := "FLEET_POSITION",
    0x6d := "SUPPLY_LIMIT", 0xbb := "ZONE_ENTRY"]

  /** What `decode_opcode` pairs with the text: the opcode's own description, or "Unknown
      opcode". */
  datatype Description = Described(opcode: byte) | UnknownOpcode

  /** `SPECIAL_OPERANDS.get(operand, f"{operand}")`. */
  function OperandText(operand: byte): string
  {
    if operand == 0xfe then "PROHIBITED" else if operand == 0xff then "UNLIMITED" else Decimal(operand)
  }

  /** `decode_opcode`: "MNEMONIC(operand)" for a known opcode, with 0xfe and 0xff named;
      "OP_xx(operand)" with the opcode in two lower-case hex digits otherwise. */
  function DecodeOpcode(opcode: byte, operand: byte): (r: (string, Description))
    ensures r.1 == UnknownOpcode <==> opcode !in Mnemonics
  {
    if opcode in Mnemonics then
      (Mnemonics[opcode] + "(" + OperandText(operand) + ")", Described(opcode))
    else
      ("OP_" + Hex2(opcode) + "(" + Decimal(operand) + ")", UnknownOpcode)
  }

  /** The position of the last '(' below `n`. */
  function LastParen(s: string, n: nat): (r: Option<nat>)
    requires n <= |s|
    ensures r.Some? ==> r.value < n && s[r.value] == '('
    ensures r.Some? ==> forall j :: r.value < j < n ==> s[j] != '('
  {
    if n == 0 then None else if s[n - 1] == '(' then Some(n - 1) else LastParen(s, n - 1)
  }

  /** The head of a decoded text: a mnemonic, or an opcode written "OP_xx". */
  datatype Head = Named(mnemonic: string) | Numbered(opcode: byte)

  /** The head a name stands for. */
  function RecoverHead(name: string): Option<Head>
  {
    if |name| == 5 && name[..3] == "OP_" then
      var v := 16 * HexValue(name[3]) + HexValue(name[4]);
      if v < 0x100 then Some(Numbered(v)) else None
    else Some(Named(name))
  }

  predicate AllDigits(s: string)
  {
    forall i :: 0 <= i < |s| ==> '0' <= s[i] <= '9'
  }

  /** The operand a text stands for: a special name (after a mnemonic only) or a decimal
      number. */
  function RecoverOperand(named: bool, inner: string): Option<byte>
  {
    if named && inner == "PROHIBITED" then Some(0xfe)
    else if named && inner == "UNLIMITED" then Some(0xff)
    else if AllDigits(inner) && ParseDecimal(inner) < 0x100 then Some(ParseDecimal(inner))
    else None
  }

  /** Reads the head and the operand back from a text "NAME(OPERAND)", splitting at the
      last '('. */
  function Recover(text: string): Option<(Head, byte)>
  {
    match LastParen(text, |text|)
    case None => None
    case Some(j) =>
      if |text| < j + 2 || text[|text| - 1] != ')' then None
      else
        var head := RecoverHead(text[..j]);
        var operand := RecoverOperand(head.Some? && head.value.Named?, text[j + 1..|text| - 1]);
        if head.Some? && operand.Some? then Some((head.value, operand.value)) else None
  }

  /** A text "NAME(INNER)" whose inner text has no '(' splits back into its name and inner
      text. */
  lemma RecoverSplit(name: string, inner: string)
    requires forall i :: 0 <= i < |inner| ==> inner[i] != '('
    ensures var text := name + "(" + inner + ")";
            Recover(text) ==
              var head := RecoverHead(name);
              var operand := RecoverOperand(head.Some? && head.value.Named?, inner);
              if head.Some? && operand.Some? then Some((head.value, operand.value)) else None
  {
    var text := name + "(" + inner + ")";
    assert LastParen(text, |text|) == Some(|name|) by {
      assert text[|name|] == '(' && text[|text| - 1] == ')';
      assert forall j :: |name| < j < |text| - 1 ==> text[j] == inner[j - |name| - 1];
      LastParenAt(text, |name|);
    }
    assert text[..|name|] == name;
    assert text[|name| + 1..|text| - 1] == inner;
  }

  /** A '(' at `p` with none after it is what the backward search finds. */
  lemma {:induction false} LastParenAt(s: string, p: nat)
    requires p < |s| && s[p] == '(' && forall j :: p < j < |s| ==> s[j] != '('
    ensures LastParen(s, |s|) == Some(p)
  {
    var n := |s|;
    while n > p + 1
      invariant p + 1 <= n <= |s|
      invariant LastParen(s, |s|) == LastParen(s, n)
    {
      n := n - 1;
    }
  }

  /** The operand text has no '('. */
  lemma OperandNoParen(operand: byte)
    ensures forall i :: 0 <= i < |OperandText(operand)| ==> OperandText(operand)[i] != '('
  {
    var t := OperandText(operand);
    if operand == 0xfe {
      assert t == ['P', 'R', 'O', 'H', 'I', 'B', 'I', 'T', 'E', 'D'];
    } else if operand == 0xff {
      assert t == ['U', 'N', 'L', 'I', 'M', 'I', 'T', 'E', 'D'];
    } else {
      assert t == Decimal(operand);
    }
  }

  /** The operand text reads back as the operand, after a mnemonic or after "OP_xx". */
  lemma OperandRecover(operand: byte)
    ensures RecoverOperand(true, OperandText(operand)) == Some(operand)
    ensures RecoverOperand(false, Decimal(operand)) == Some(operand)
  {
    DecimalRoundTrip(operand);
    var d := Decimal(operand);
    assert '0' <= d[0] <= '9';
    assert d != "PROHIBITED" && d != "UNLIMITED" by {
      assert "PROHIBITED"[0] == 'P' && "UNLIMITED"[0] == 'U';
    }
  }

  /** No mnemonic has the "OP_xx" shape. */
  lemma MnemonicNotNumbered(opcode: byte)
    requires opcode in Mnemonics
    ensures |Mnemonics[opcode]| != 5 || Mnemonics[opcode][0] != 'O'
  {
  }

  /** The decoded text gives back its operand and its head: the mnemonic of a known
      opcode, or the opcode itself for an unknown one. */
  lemma DecodeOpcodeRecover(opcode: byte, operand: byte)
    ensures Recover(DecodeOpcode(opcode, operand).0)
            == Some((if opcode in Mnemonics then Named(Mnemonics[opcode]) else Numbered(opcode), operand))
  {
    OperandRecover(operand);
    OperandNoParen(operand);
    if opcode in Mnemonics {
      var m := Mnemonics[opcode];
      MnemonicNotNumbered(opcode);
      if |m| == 5 {
        assert m[..3][0] == m[0];
      }
      assert RecoverHead(m) == Some(Named(m));
      RecoverSplit(m, OperandText(operand));
    } else {
      var h := Hex2(opcode);
      var name := "OP_" + h;
      assert name[..3] == "OP_" && name[3] == h[0] && name[4] == h[1];
      assert RecoverHead(name) == Some(Numbered(opcode));
      RecoverSplit(name, Decimal(operand));
    }
  }
}
