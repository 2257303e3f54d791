/** Byte-level primitives shared by every codec: little-endian words, Python-style
    searching and slicing over byte strings, NUL-terminated strings and small
    text helpers. Text is kept as bytes throughout: latin-1 maps each byte to one
    character, so a byte string and its decoded text carry the same information. */
module Bytes {

  type byte = b: int | 0 <= b < 0x100
  type u16 = w: int | 0 <= w < 0x1_0000
  type u32 = w: int | 0 <= w < 0x1_0000_0000

  datatype Option<+T> = None | Some(value: T)

  /** A computation that either yields a value or raises (Python's ValueError/struct.error). */
  datatype Result<+T> = Ok(value: T) | Err(message: string)

  /** The message of `struct.error` when fewer than two bytes remain for a word. */
  const ShortBuffer: string := "unpack requires a buffer of 2 bytes"
  /** The message of `struct.error` when a count does not fit an unsigned 16-bit word. */
  const UShortRange: string := "ushort format requires 0 <= number <= 65535"

  // ---------------------------------------------------------------------------
  // Little-endian words

  /** The word whose low byte is `lo` and high byte is `hi`. */
  function WordOf(lo: byte, hi: byte): u16
  {
    lo + 0x100 * hi
  }

  /** A word splits back into the bytes it was built from. */
  lemma WordOfBytes(lo: byte, hi: byte)
    ensures LowByte(WordOf(lo, hi)) == lo && HighByte(WordOf(lo, hi)) == hi
  {
  }

  /** The little-endian word stored at `off`. */
  function WordAt(data: seq<byte>, off: nat): u16
    requires off + 2 <= |data|
  {
    WordOf(data[off], data[off + 1])
  }

  /** `_read_word`: the word at `offset` and the offset past it; struct.error when fewer
      than two bytes remain. */
  function ReadWord(data: seq<byte>, offset: nat): (r: Result<(u16, nat)>)
    ensures r.Ok? <==> offset + 2 <= |data|
    ensures r.Ok? ==> r.value.1 == offset + 2
  {
    if offset + 2 <= |data| then Ok((WordAt(data, offset), offset + 2))
    else Err(ShortBuffer)
  }

  /** The word read has the byte at `offset` as its low byte and the next one as its high
      byte. */
  lemma ReadWordBytes(data: seq<byte>, offset: nat)
    requires offset + 2 <= |data|
    ensures LowByte(ReadWord(data, offset).value.0) == data[offset]
    ensures HighByte(ReadWord(data, offset).value.0) == data[offset + 1]
  {
    WordOfBytes(data[offset], data[offset + 1]);
  }

  function LowByte(w: u16): byte { w % 0x100 }
  function HighByte(w: u16): byte { w / 0x100 }

  /** `struct.pack("<H", w)`. */
  function WordBytes(w: u16): (r: seq<byte>)
    ensures |r| == 2 && WordOf(r[0], r[1]) == w
  {
    [LowByte(w), HighByte(w)]
  }

  /** Packing a word read from the data gives back the two bytes it was read from. */
  lemma WordBytesAt(data: seq<byte>, off: nat)
    requires off + 2 <= |data|
    ensures WordBytes(WordAt(data, off)) == data[off..off + 2]
  {
    WordOfBytes(data[off], data[off + 1]);
  }

  /** `struct.pack("<" + "H" * n, *ws)`. */
  function PackWords(ws: seq<u16>): (r: seq<byte>)
    ensures |r| == 2 * |ws|
  {
    if ws == [] then [] else WordBytes(ws[0]) + PackWords(ws[1..])
  }

  /** `struct.unpack("<" + "H" * n, data)` for an even-length buffer. */
  function UnpackWords(data: seq<byte>): (ws: seq<u16>)
    requires |data| % 2 == 0
    ensures |ws| == |data| / 2
  {
    if data == [] then [] else [WordAt(data, 0)] + UnpackWords(data[2..])
  }

  /** Word i of the unpacked data is the little-endian word at byte offset 2i. */
  lemma {:induction false} UnpackWordsAt(data: seq<byte>, i: nat)
    requires |data| % 2 == 0 && i < |data| / 2
    ensures UnpackWords(data)[i] == WordAt(data, 2 * i)
  {
    if i > 0 {
      UnpackWordsAt(data[2..], i - 1);
      assert data[2..][2 * (i - 1)] == data[2 * i] && data[2..][2 * (i - 1) + 1] == data[2 * i + 1];
    }
  }

  lemma {:induction false} PackWordsAt(ws: seq<u16>, i: nat)
    requires i < |ws|
    ensures WordAt(PackWords(ws), 2 * i) == ws[i]
  {
    if i > 0 {
      PackWordsAt(ws[1..], i - 1);
      assert PackWords(ws) == WordBytes(ws[0]) + PackWords(ws[1..]);
    }
  }

  /** Unpacking what was packed gives the words back. */
  lemma UnpackPackWords(ws: seq<u16>)
    ensures UnpackWords(PackWords(ws)) == ws
  {
    var back := UnpackWords(PackWords(ws));
    forall i | 0 <= i < |ws| ensures back[i] == ws[i] {
      PackWordsAt(ws, i);
      UnpackWordsAt(PackWords(ws), i);
    }
  }

  /** Packing what was unpacked gives the bytes back. */
  lemma {:induction false} PackUnpackWords(data: seq<byte>)
    requires |data| % 2 == 0
    ensures PackWords(UnpackWords(data)) == data
  {
    if data != [] {
      PackUnpackWords(data[2..]);
      WordOfBytes(data[0], data[1]);
      assert WordBytes(WordAt(data, 0)) == data[..2];
      assert UnpackWords(data)[1..] == UnpackWords(data[2..]);
      assert data == data[..2] + data[2..];
    }
  }

  /** `int.from_bytes(bs, "little")` for a buffer of any length (a short slice near the end
      of a file gives a smaller number rather than an error). */
  function LittleEndian(bs: seq<byte>): nat
  {
    if bs == [] then 0 else bs[0] + 0x100 * LittleEndian(bs[1..])
  }

  /** The little-endian u32 at `off` (`struct.unpack_from("<I", …)`). */
  function U32At(data: seq<byte>, off: nat): u32
    requires off + 4 <= |data|
  {
    (data[off] as int) + 0x100 * (data[off + 1] as int) + 0x1_0000 * (data[off + 2] as int)
      + 0x100_0000 * (data[off + 3] as int)
  }

  lemma LittleEndianFour(data: seq<byte>, off: nat)
    requires off + 4 <= |data|
    ensures LittleEndian(data[off..off + 4]) == U32At(data, off)
  {
    var s := data[off..off + 4];
    assert s[1..][1..][1..][1..] == [];
    assert LittleEndian(s[1..][1..][1..]) == s[3];
    assert LittleEndian(s[1..][1..]) == (s[2] as int) + 0x100 * (s[3] as int);
    assert LittleEndian(s[1..]) == (s[1] as int) + 0x100 * (s[2] as int) + 0x1_0000 * (s[3] as int);
  }

  // ---------------------------------------------------------------------------
  // Python-style slicing and searching

  /** `s[a:b]` for non-negative bounds: both are clipped to the length and an empty
      slice results when `b` lies before `a`. */
  function Slice(s: seq<byte>, a: nat, b: nat): (r: seq<byte>)
    ensures a <= b <= |s| ==> r == s[a..b]
    ensures |r| <= |s|
    ensures a >= |s| ==> r == []
  {
    var lo := if a < |s| then a else |s|;
    var hi := if b < |s| then b else |s|;
    if hi <= lo then [] else s[lo..hi]
  }

  /** `s[a:]`. */
  function From(s: seq<byte>, a: nat): (r: seq<byte>)
    ensures a <= |s| ==> r == s[a..]
    ensures a > |s| ==> r == []
  {
    if a <= |s| then s[a..] else []
  }

  predicate IsAt(s: seq<byte>, pat: seq<byte>, i: nat)
  {
    i + |pat| <= |s| && s[i..i + |pat|] == pat
  }

  predicate Contains(s: seq<byte>, pat: seq<byte>)
  {
    exists i :: 0 <= i <= |s| && IsAt(s, pat, i)
  }

  /** `s.find(pat, from, end)`: the first occurrence lying wholly inside `s[from:end]`. */
  function FindIn(s: seq<byte>, pat: seq<byte>, from: nat, end: nat): (r: Option<nat>)
    requires |pat| > 0
    ensures r.Some? ==> from <= r.value && r.value + |pat| <= end && IsAt(s, pat, r.value)
    ensures r.Some? ==> forall j: nat :: from <= j < r.value ==> !IsAt(s, pat, j)
    ensures r.None? ==> forall j: nat :: from <= j && j + |pat| <= end ==> !IsAt(s, pat, j)
    decreases |s| - from
  {
    if from + |pat| > |s| || from + |pat| > end then None
    else if IsAt(s, pat, from) then Some(from)
    else FindIn(s, pat, from + 1, end)
  }

  /** `s.find(pat, from)`. */
  function Find(s: seq<byte>, pat: seq<byte>, from: nat): (r: Option<nat>)
    requires |pat| > 0
    ensures r.Some? ==> from <= r.value && IsAt(s, pat, r.value)
    ensures r.Some? ==> forall j: nat :: from <= j < r.value ==> !IsAt(s, pat, j)
    ensures r.None? ==> forall j: nat :: from <= j ==> !IsAt(s, pat, j)
  {
    FindIn(s, pat, from, |s|)
  }

  lemma FindNoneIffAbsent(s: seq<byte>, pat: seq<byte>)
    requires |pat| > 0
    ensures Find(s, pat, 0).None? <==> !Contains(s, pat)
  {
    if Find(s, pat, 0).Some? {
      assert IsAt(s, pat, Find(s, pat, 0).value);
    }
  }

  /** The last occurrence starting below `n`. */
  function LastMatch(s: seq<byte>, pat: seq<byte>, n: nat): (r: Option<nat>)
    requires |pat| > 0
    ensures r.Some? ==> r.value < n && IsAt(s, pat, r.value)
    ensures r.Some? ==> forall j: nat :: r.value < j < n ==> !IsAt(s, pat, j)
    ensures r.None? ==> forall j: nat :: j < n ==> !IsAt(s, pat, j)
  {
    if n == 0 then None
    else if IsAt(s, pat, n - 1) then Some(n - 1)
    else LastMatch(s, pat, n - 1)
  }

  /** `s.rfind(pat)`. */
  function RFind(s: seq<byte>, pat: seq<byte>): (r: Option<nat>)
    requires |pat| > 0
    ensures r.Some? ==> IsAt(s, pat, r.value) && forall j: nat :: r.value < j ==> !IsAt(s, pat, j)
    ensures r.None? ==> forall j: nat :: !IsAt(s, pat, j)
  {
    LastMatch(s, pat, |s|)
  }

  /** `s.rfind(pat)` finds something exactly when the pattern occurs. */
  lemma RFindContains(s: seq<byte>, pat: seq<byte>)
    requires |pat| > 0
    ensures RFind(s, pat).Some? <==> Contains(s, pat)
  {
    if RFind(s, pat).Some? {
      assert IsAt(s, pat, RFind(s, pat).value);
    }
  }

  /** `s.find(bytes([b]), from)` for a single byte. */
  function IndexOf(s: seq<byte>, b: byte, from: nat): (r: Option<nat>)
    ensures r.Some? ==> from <= r.value < |s| && s[r.value] == b
    ensures r.Some? ==> forall j :: from <= j < r.value ==> s[j] != b
    ensures r.None? ==> forall j :: from <= j < |s| ==> s[j] != b
    decreases |s| - from
  {
    if from >= |s| then None
    else if s[from] == b then Some(from)
    else IndexOf(s, b, from + 1)
  }

  /** `_read_cstring_bytes` (and its twin `read_cstring_bytes` in the dump tool): the bytes
      up to the next NUL at or after `offset` and the offset past that NUL; without a NUL,
      the rest of the data and its length. */
  function ReadCString(data: seq<byte>, offset: nat): (r: (seq<byte>, nat))
    ensures 0 !in r.0 && r.1 <= |data|
    ensures offset <= |data| ==> offset <= r.1 && (offset < |data| ==> offset < r.1)
  {
    match IndexOf(data, 0, offset)
    case None => (From(data, offset), |data|)
    case Some(e) => (data[offset..e], e + 1)
  }

  /** With a NUL at or after `offset`, the string and its NUL are the data up to the new
      offset; without one, the string is the rest of the data. */
  lemma ReadCStringSplit(data: seq<byte>, offset: nat)
    requires offset <= |data|
    ensures var (s, next) := ReadCString(data, offset);
            (IndexOf(data, 0, offset).Some? ==>
               next == IndexOf(data, 0, offset).value + 1 && data[offset..next] == s + [0])
            && (IndexOf(data, 0, offset).None? ==> next == |data| && s == data[offset..])
  {
    match IndexOf(data, 0, offset)
    case None =>
    case Some(e) =>
      assert data[offset..e + 1] == data[offset..e] + [data[e]];
  }

  /** `s.rstrip(chars)`: drop trailing bytes that belong to `strip`. */
  function RStrip(s: seq<byte>, strip: set<byte>): (r: seq<byte>)
    ensures |r| <= |s|
  {
    if s == [] || s[|s| - 1] !in strip then s else RStrip(s[..|s| - 1], strip)
  }

  /** `rstrip` keeps a prefix that is empty or ends outside `strip`, and every byte it drops
      belongs to `strip`. */
  lemma {:induction false} RStripSpec(s: seq<byte>, strip: set<byte>)
    ensures var r := RStrip(s, strip);
            r == s[..|r|] && (r == [] || r[|r| - 1] !in strip)
            && forall i :: |r| <= i < |s| ==> s[i] in strip
  {
    if !(s == [] || s[|s| - 1] !in strip) {
      RStripSpec(s[..|s| - 1], strip);
      var r := RStrip(s, strip);
      assert s[..|s| - 1][..|r|] == s[..|r|];
    }
  }

  /** The whitespace characters of Python's `str.strip()` among the latin-1 characters. */
  const Whitespace: set<byte> := {9, 10, 11, 12, 13, 28, 29, 30, 31, 32, 0x85, 0xA0}

  /** `str.lstrip()`: drop leading whitespace. */
  function LStrip(s: seq<byte>): (r: seq<byte>)
    ensures |r| <= |s| && r == s[|s| - |r|..]
    ensures r == [] || r[0] !in Whitespace
    ensures forall i :: 0 <= i < |s| - |r| ==> s[i] in Whitespace
  {
    if s != [] && s[0] in Whitespace then LStrip(s[1..]) else s
  }

  /** `str.strip()` on latin-1 text. */
  function Strip(s: seq<byte>): (r: seq<byte>)
    ensures |r| <= |s|
    ensures r == [] || (r[0] !in Whitespace && r[|r| - 1] !in Whitespace)
  {
    RStripSpec(LStrip(s), Whitespace);
    RStrip(LStrip(s), Whitespace)
  }

  predicate EndsWith(s: seq<byte>, suffix: seq<byte>)
  {
    |suffix| <= |s| && s[|s| - |suffix|..] == suffix
  }

  /** A latin-1 encoded copy of a string literal (every character used here is below 0x100). */
  function Latin1(s: string): (r: seq<byte>)
    ensures |r| == |s|
  {
    seq(|s|, i requires 0 <= i < |s| => (s[i] as int) % 0x100)
  }

  /** `n` zeros, as `b"\x00" * n` and `[0] * n`; a run of zero bytes is also a run of
      zero words. */
  function Zeros(n: nat): (r: seq<byte>)
    ensures |r| == n && forall i :: 0 <= i < n ==> r[i] == 0
  {
    seq(n, _ => 0)
  }

  // ---------------------------------------------------------------------------
  // Casing, for ASCII letters

  predicate IsUpperAscii(b: byte) { 'A' as int <= b <= 'Z' as int }
  predicate IsLowerAscii(b: byte) { 'a' as int <= b <= 'z' as int }

  /** `str.upper()` on ASCII letters. */
  function UpperByte(b: byte): byte
  {
    if IsLowerAscii(b) then b - 32 else b
  }

  function Upper(s: seq<byte>): (r: seq<byte>)
    ensures |r| == |s| && forall i :: 0 <= i < |s| ==> r[i] == UpperByte(s[i])
  {
    seq(|s|, i requires 0 <= i < |s| => UpperByte(s[i]))
  }

  /** `str.isupper()`: at least one cased character and no lower-case one. */
  predicate IsUpperText(s: seq<byte>)
  {
    (exists i :: 0 <= i < |s| && IsUpperAscii(s[i])) && forall i :: 0 <= i < |s| ==> !IsLowerAscii(s[i])
  }

  // ---------------------------------------------------------------------------
  // Number formatting

  function Digit(d: nat): char
    requires d < 10
  {
    ('0' as int + d) as char
  }

  /** `str(n)` for a non-negative integer. */
  function Decimal(n: nat): (r: string)
    ensures |r| >= 1 && forall i :: 0 <= i < |r| ==> '0' <= r[i] <= '9'
  {
    if n < 10 then [Digit(n)] else Decimal(n / 10) + [Digit(n % 10)]
  }

  function ParseDecimal(s: string): nat
    requires forall i :: 0 <= i < |s| ==> '0' <= s[i] <= '9'
  {
    if s == [] then 0 else 10 * ParseDecimal(s[..|s| - 1]) + (s[|s| - 1] as int - '0' as int)
  }

  /** Reading the decimal text back gives the number. */
  lemma {:induction false} DecimalRoundTrip(n: nat)
    ensures ParseDecimal(Decimal(n)) == n
  {
    if n >= 10 {
      DecimalRoundTrip(n / 10);
      var s := Decimal(n);
      assert s[..|s| - 1] == Decimal(n / 10);
    }
  }

  function Pow10(k: nat): (r: nat)
    ensures r >= 1
  {
    if k == 0 then 1 else 10 * Pow10(k - 1)
  }

  /** A number below 10^k is written with at most k digits. */
  lemma {:induction false} DecimalLength(n: nat, k: nat)
    requires 1 <= k && n < Pow10(k)
    ensures |Decimal(n)| <= k
  {
    if n >= 10 {
      assert k != 1;
      DecimalLength(n / 10, k - 1);
    }
  }

  function HexDigit(d: nat): char
    requires d < 16
  {
    if d < 10 then ('0' as int + d) as char else ('a' as int + d - 10) as char
  }

  function HexValue(c: char): nat
  {
    if '0' <= c <= '9' then c as int - '0' as int
    else if 'a' <= c <= 'f' then c as int - 'a' as int + 10
    else 0
  }

  /** `f"{b:02x}"` for a byte. */
  function Hex2(b: byte): (r: string)
    ensures |r| == 2 && 16 * HexValue(r[0]) + HexValue(r[1]) == b
  {
    [HexDigit(b / 16), HexDigit(b % 16)]
  }

  // ---------------------------------------------------------------------------
  // Sequence facts used as single proof steps (stated once, generically, so that
  // the proofs using them need not reason about sequence equality themselves)

  lemma AppendNil<T>(s: seq<T>)
    ensures [] + s == s && s + [] == s
  {
  }

  lemma AppendAssoc3<T>(a: seq<T>, b: seq<T>, c: seq<T>)
    ensures a + b + c == a + (b + c)
  {
  }

  lemma SliceSplit<T>(s: seq<T>, i: nat, j: nat)
    requires i <= j <= |s|
    ensures s[i..] == s[i..j] + s[j..]
  {
  }

  lemma PrefixSnoc<T>(s: seq<T>, i: nat)
    requires i < |s|
    ensures s[..i + 1] == s[..i] + [s[i]]
  {
  }

  lemma PrefixAll<T>(s: seq<T>)
    ensures s[..|s|] == s
  {
  }

  lemma PrefixOfPrefix<T>(s: seq<T>, k: nat)
    requires k < |s|
    ensures |s[..k + 1]| == k + 1 && s[..k + 1][..k] == s[..k] && s[..k + 1][k] == s[k]
  {
  }

  lemma SliceAround<T>(s: seq<T>, i: nat, z: nat)
    requires i <= z < |s|
    ensures s[i..] == s[i..z] + [s[z]] + s[z + 1..]
  {
  }

  lemma SliceJoin<T>(s: seq<T>, i: nat, j: nat, k: nat)
    requires i <= j <= k <= |s|
    ensures s[i..k] == s[i..j] + s[j..k]
  {
  }
}
