/** The MICN counter icons of MICONRES.RES (editor/icons.py): a search for "MICN" records,
    the packed header after each one, the 4-bit pixels that follow, and the colour rule
    used to render an icon for one side. */
module Icons {
  import opened Bytes

  type nibble = n: int | 0 <= n < 16

  /** "MICN", the signature that opens every record. */
  const Micn: seq<byte> := [0x4D, 0x49, 0x43, 0x4E]
  /** The header is 16 bytes, and the pixel data opens with 8 more. */
  const HeaderSize: nat := 16
  const PixelPrefix: nat := 8

  datatype MiconIcon = MiconIcon(index: nat, width: nat, height: nat, backgroundIndex: nibble,
                                 pixels: seq<seq<nibble>>)

  // ---------------------------------------------------------------------------
  // Arithmetic used by the row layout

  lemma {:induction false} MulGrows(d: nat, w: nat)
    requires d >= 1
    ensures d * w >= w
    decreases d
  {
    if d > 1 {
      MulGrows(d - 1, w);
      assert d * w == (d - 1) * w + w;
    }
  }

  /** Quotient and remainder are the only pair that rebuilds `x`. */
  lemma DivModUnique(x: int, w: nat, q: int, r: int)
    requires w > 0 && 0 <= r < w && x == q * w + r
    ensures x / w == q && x % w == r
  {
    var q2, r2 := x / w, x % w;
    assert x == q2 * w + r2 && 0 <= r2 < w;
    if q > q2 {
      MulGrows(q - q2, w);
    } else if q2 > q {
      MulGrows(q2 - q, w);
    }
  }

  /** Taking one row of `w` off a count lowers its row and keeps its column. */
  lemma DivModStep(a: nat, w: nat)
    requires a >= w > 0
    ensures (a - w) / w == a / w - 1 && (a - w) % w == a % w
  {
    var q, r := a / w, a % w;
    assert a == q * w + r;
    assert (q - 1) * w == q * w - w;
    DivModUnique(a - w, w, q - 1, r);
  }

  lemma DivModSmall(a: nat, w: nat)
    requires a < w
    ensures a / w == 0 && a % w == a
  {
    DivModUnique(a, w, 0, a);
  }

  // ---------------------------------------------------------------------------
  // Rows of pixels

  /** A run of pixels cut into rows of `w`, the last one possibly shorter. */
  function Rows(f: seq<nibble>, w: nat): seq<seq<nibble>>
    decreases |f|
  {
    if f == [] || w == 0 then []
    else if |f| <= w then [f]
    else [f[..w]] + Rows(f[w..], w)
  }

  /** The rows joined back together. */
  function Flatten(rows: seq<seq<nibble>>): seq<nibble>
  {
    if rows == [] then [] else rows[0] + Flatten(rows[1..])
  }

  /** Joining the rows gives back the run: no pixel is lost, repeated or reordered. */
  lemma {:induction false} FlattenRows(f: seq<nibble>, w: nat)
    requires w > 0
    ensures Flatten(Rows(f, w)) == f
    decreases |f|
  {
    if f != [] && |f| > w {
      FlattenRows(f[w..], w);
      assert Rows(f, w)[1..] == Rows(f[w..], w);
      assert f == f[..w] + f[w..];
    }
  }

  /** How many rows a run fills, and that every row but the last is full. */
  lemma {:induction false} RowsShape(f: seq<nibble>, w: nat)
    requires w > 0
    ensures |Rows(f, w)| == if |f| % w == 0 then |f| / w else |f| / w + 1
    ensures forall y :: 0 <= y < |Rows(f, w)| - 1 ==> |Rows(f, w)[y]| == w
    ensures Rows(f, w) != [] ==> 0 < |Rows(f, w)[|Rows(f, w)| - 1]| <= w
    decreases |f|
  {
    if |f| < w {
      DivModSmall(|f|, w);
    } else if |f| == w {
      DivModUnique(w, w, 1, 0);
    } else {
      RowsShape(f[w..], w);
      DivModStep(|f|, w);
      var rest := Rows(f[w..], w);
      assert Rows(f, w) == [f[..w]] + rest;
      assert forall y :: 1 <= y < |Rows(f, w)| ==> Rows(f, w)[y] == rest[y - 1];
    }
  }

  /** Pixel `k` of the run lands in row `k / w`, column `k % w`. */
  lemma {:induction false} RowsIndex(f: seq<nibble>, w: nat, k: nat)
    requires w > 0 && k < |f|
    ensures k / w < |Rows(f, w)| && k % w < |Rows(f, w)[k / w]|
    ensures Rows(f, w)[k / w][k % w] == f[k]
    decreases |f|
  {
    if k < w {
      DivModSmall(k, w);
    } else {
      DivModStep(k, w);
      RowsIndex(f[w..], w, k - w);
    }
  }

  /** No row is open: there are no rows, or the last one holds `w` pixels. */
  predicate LastRowFull(rows: seq<seq<nibble>>, w: nat)
  {
    rows == [] || |rows[|rows| - 1]| == w
  }

  /** The last row is full exactly when the run length is a multiple of `w`. */
  lemma {:induction false} LastRowFullIff(f: seq<nibble>, w: nat)
    requires w > 0
    ensures LastRowFull(Rows(f, w), w) <==> |f| % w == 0
    decreases |f|
  {
    if f == [] {
      DivModSmall(0, w);
    } else if |f| < w {
      DivModSmall(|f|, w);
    } else if |f| == w {
      DivModUnique(w, w, 1, 0);
    } else {
      LastRowFullIff(f[w..], w);
      DivModStep(|f|, w);
      RowsCons(f, w);
    }
  }

  /** What adding pixel `x` to run `f` does to the rows: a new row when none is open,
      otherwise the open row grows. */
  function SnocRows(f: seq<nibble>, x: nibble, w: nat): seq<seq<nibble>>
  {
    var rows := Rows(f, w);
    if LastRowFull(rows, w) then rows + [[x]]
    else rows[..|rows| - 1] + [rows[|rows| - 1] + [x]]
  }

  /** A run longer than one row starts with a full row. */
  lemma RowsCons(g: seq<nibble>, w: nat)
    requires 0 < w < |g|
    ensures Rows(g, w) == [g[..w]] + Rows(g[w..], w) && Rows(g[w..], w) != []
  {
  }

  /** The inductive step of `RowsSnoc`: a run longer than one row keeps its first row. */
  lemma RowsSnocStep(f: seq<nibble>, x: nibble, w: nat)
    requires 0 < w < |f|
    requires Rows(f[w..] + [x], w) == SnocRows(f[w..], x, w)
    ensures Rows(f + [x], w) == SnocRows(f, x, w)
  {
    RowsCons(f, w);
    RowsCons(f + [x], w);
    assert (f + [x])[..w] == f[..w];
    assert (f + [x])[w..] == f[w..] + [x];
    var rest := Rows(f[w..], w);
    var rows := Rows(f, w);
    assert rows[|rows| - 1] == rest[|rest| - 1];
    if LastRowFull(rest, w) {
      AppendAssoc3([f[..w]], rest, [[x]]);
    } else {
      var last := rest[|rest| - 1] + [x];
      assert rows[..|rows| - 1] == [f[..w]] + rest[..|rest| - 1];
      AppendAssoc3([f[..w]], rest[..|rest| - 1], [last]);
    }
  }

  /** Adding one pixel to a run either opens a new row or extends the last one. */
  lemma {:induction false} RowsSnoc(f: seq<nibble>, x: nibble, w: nat)
    requires w > 0
    ensures Rows(f + [x], w) == SnocRows(f, x, w)
    decreases |f|
  {
    if f == [] {
      assert f + [x] == [x];
    } else if |f| == w {
      assert (f + [x])[..w] == f;
      assert (f + [x])[w..] == [x];
    } else if |f| > w {
      RowsSnoc(f[w..], x, w);
      RowsSnocStep(f, x, w);
    }
  }

  /** A run of at most `w * h` pixels fills at most `h` rows of at most `w`. */
  lemma {:induction false} RowsFit(f: seq<nibble>, w: nat, h: nat)
    requires |f| <= w * h
    ensures |Rows(f, w)| <= h && forall y :: 0 <= y < |Rows(f, w)| ==> |Rows(f, w)[y]| <= w
    decreases |f|
  {
    if f != [] && w != 0 && |f| > w {
      assert |f[w..]| <= w * (h - 1);
      RowsFit(f[w..], w, h - 1);
      var rest := Rows(f[w..], w);
      assert forall y :: 1 <= y < |Rows(f, w)| ==> Rows(f, w)[y] == rest[y - 1];
    }
  }

  /** The row that pixel `|f|` falls in already exists exactly when a row is open. */
  lemma RowsCount(f: seq<nibble>, w: nat)
    requires w > 0
    ensures LastRowFull(Rows(f, w), w) ==> |Rows(f, w)| == |f| / w
    ensures !LastRowFull(Rows(f, w), w) ==> |Rows(f, w)| == |f| / w + 1
  {
    RowsShape(f, w);
    LastRowFullIff(f, w);
  }

  /** The body of the pixel loop once a pixel is kept: add empty rows until row
      `pix_idx // width` exists, then append the pixel to it. */
  method AppendPixel(pixels: seq<seq<nibble>>, pixIdx: nat, width: nat, pix: nibble, ghost f: seq<nibble>)
    returns (r: seq<seq<nibble>>)
    requires width > 0 && |f| == pixIdx && pixels == Rows(f, width)
    ensures r == Rows(f + [pix], width)
  {
    var y := pixIdx / width;
    ghost var rows := Rows(f, width);
    RowsCount(f, width);
    RowsSnoc(f, pix, width);
    ghost var full := LastRowFull(rows, width);
    r := pixels;
    while |r| <= y
      invariant r == rows || (full && r == rows + [[]])
      decreases y + 1 - |r|
    {
      r := r + [[]];
    }
    r := r[y := r[y] + [pix]];
    if full {
      assert [] + [pix] == [pix];
      assert r == rows + [[pix]];
    } else {
      assert r == rows[..y] + [rows[y] + [pix]];
    }
  }

  // ---------------------------------------------------------------------------
  // Pixels

  /** Nibble `t` of the data, the high nibble of each byte first. */
  function Nibble(data: seq<byte>, t: nat): nibble
    requires t < 2 * |data|
  {
    if t % 2 == 0 then data[t / 2] / 16 else data[t / 2] % 16
  }

  /** The first `n` pixels: pixel `k` is nibble `k + 1`, so the first nibble is skipped. */
  function Run(data: seq<byte>, n: nat): (r: seq<nibble>)
    requires n < 2 * |data| || n == 0
    ensures |r| == n && forall k :: 0 <= k < n ==> r[k] == Nibble(data, k + 1)
  {
    seq(n, k requires 0 <= k < n => Nibble(data, k + 1))
  }

  lemma RunSnoc(data: seq<byte>, n: nat)
    requires n + 1 < 2 * |data|
    ensures Run(data, n + 1) == Run(data, n) + [Nibble(data, n + 1)]
  {
    assert Run(data, n + 1)[..n] == Run(data, n);
  }

  /** How many pixels the decoder keeps: every nibble after the first, at most `total`. */
  function RunLength(size: nat, total: nat): (n: nat)
    ensures n <= total && (n == 0 || n < 2 * size)
  {
    if size == 0 then 0 else if total < 2 * size - 1 then total else 2 * size - 1
  }

  /** The pixels of one icon, in row-major order. */
  function PixelRun(data: seq<byte>, total: nat): seq<nibble>
  {
    Run(data, RunLength(|data|, total))
  }

  function Max0(i: int): nat
  {
    if i < 0 then 0 else i
  }

  /** The pixel loop of `load_micon_icons`: `pix_idx` starts at -1, each byte gives its high
      and then its low nibble, and decoding stops once `width * height` pixels are kept. */
  method DecodePixels(data: seq<byte>, width: nat, height: nat) returns (pixels: seq<seq<nibble>>)
    ensures pixels == Rows(PixelRun(data, width * height), width)
  {
    pixels := [];
    var pixIdx: int := -1;
    var totalPixels := width * height;
    var i := 0;
    while i < |data|
      invariant 0 <= i <= |data| && pixIdx == 2 * i - 1 && pixIdx < totalPixels
      invariant pixels == Rows(Run(data, Max0(pixIdx)), width)
    {
      var byteVal := data[i];
      var pair := [byteVal / 16, byteVal % 16];
      var j := 0;
      while j < 2
        invariant 0 <= j <= 2 && pixIdx == 2 * i - 1 + j && pixIdx < totalPixels
        invariant pixels == Rows(Run(data, Max0(pixIdx)), width)
      {
        var pix := pair[j];
        if 0 <= pixIdx < totalPixels {
          assert pix == Nibble(data, pixIdx + 1);
          RunSnoc(data, pixIdx);
          pixels := AppendPixel(pixels, pixIdx, width, pix, Run(data, pixIdx));
        }
        pixIdx := pixIdx + 1;
        if pixIdx >= totalPixels {
          break;
        }
        j := j + 1;
      }
      if pixIdx >= totalPixels {
        break;
      }
      i := i + 1;
    }
  }

  // ---------------------------------------------------------------------------
  // The record header

  /** The header fields of one record: the data size, the icon's width and height, and
      the colour index that a side's colour replaces. */
  datatype Header = Header(size: nat, width: nat, height: nat, background: nibble)

  /** `packed & 0xFFFF`, `(packed >> 16) & 0xFF` and `(packed >> 24) & 0xFF`. */
  function Unpack(packed: nat): (nat, nat, nat)
  {
    (packed % 0x1_0000, (packed / 0x1_0000) % 0x100, (packed / 0x100_0000) % 0x100)
  }

  /** `height << 24 | width << 16 | size`, the layout the header comment describes. */
  function Pack(size: nat, width: nat, height: nat): nat
  {
    size + 0x1_0000 * width + 0x100_0000 * height
  }

  /** Unpacking recovers the three fields that were packed. */
  lemma UnpackPack(size: nat, width: nat, height: nat)
    requires size < 0x1_0000 && width < 0x100 && height < 0x100
    ensures Unpack(Pack(size, width, height)) == (size, width, height)
  {
    var p := Pack(size, width, height);
    DivModUnique(p, 0x1_0000, width + 0x100 * height, size);
    DivModUnique(width + 0x100 * height, 0x100, height, width);
    DivModUnique(p, 0x100_0000, height, size + 0x1_0000 * width);
    DivModSmall(height, 0x100);
  }

  /** The header of the record whose signature is at `m`; bytes missing at the end of the
      file read as a shorter little-endian number, as `int.from_bytes` of a short slice. */
  function ReadHeader(blob: seq<byte>, m: nat): Header
  {
    var packed := LittleEndian(Slice(blob, m + 8, m + 12));
    var fields := Unpack(packed);
    Header(fields.0, fields.1, fields.2, LittleEndian(Slice(blob, m + 12, m + 16)) % 16)
  }

  /** In a complete header the size is the word at +8, the width and height the bytes at
      +10 and +11, and the background the low nibble of the byte at +12. */
  lemma ReadHeaderBytes(blob: seq<byte>, m: nat)
    requires m + 16 <= |blob|
    ensures ReadHeader(blob, m) == Header(WordAt(blob, m + 8), blob[m + 10], blob[m + 11], blob[m + 12] % 16)
  {
    LittleEndianFour(blob, m + 8);
    LittleEndianFour(blob, m + 12);
    assert Slice(blob, m + 8, m + 12) == blob[m + 8..m + 12];
    assert Slice(blob, m + 12, m + 16) == blob[m + 12..m + 16];
    PackedFields(blob, m + 8);
    LowNibble(blob, m + 12);
  }

  lemma PackedFields(blob: seq<byte>, off: nat)
    requires off + 4 <= |blob|
    ensures Unpack(U32At(blob, off)) == (WordAt(blob, off), blob[off + 2], blob[off + 3])
  {
    assert U32At(blob, off) == Pack(WordAt(blob, off), blob[off + 2], blob[off + 3]);
    UnpackPack(WordAt(blob, off), blob[off + 2], blob[off + 3]);
  }

  lemma LowNibble(blob: seq<byte>, off: nat)
    requires off + 4 <= |blob|
    ensures U32At(blob, off) % 16 == blob[off] % 16
  {
    var b: int := blob[off];
    var rest: int := (blob[off + 1] as int) + 0x100 * (blob[off + 2] as int) + 0x1_0000 * (blob[off + 3] as int);
    assert U32At(blob, off) == (b / 16 + 16 * rest) * 16 + b % 16;
    DivModUnique(U32At(blob, off), 16, b / 16 + 16 * rest, b % 16);
  }

  // ---------------------------------------------------------------------------
  // Records

  /** The positions `load_micon_icons` finds "MICN" at, resuming 4 bytes past each. */
  function Markers(blob: seq<byte>, from: nat): seq<nat>
    decreases |blob| - from
  {
    match Find(blob, Micn, from)
    case None => []
    case Some(m) => [m] + Markers(blob, m + 4)
  }

  lemma MarkersStep(blob: seq<byte>, from: nat, m: nat)
    requires Find(blob, Micn, from) == Some(m)
    ensures Markers(blob, from) == [m] + Markers(blob, m + 4) && m + 4 <= |blob|
  {
  }

  /** Two "MICN" signatures never overlap: no letter of it repeats its first. */
  lemma MicnNoOverlap(blob: seq<byte>, p: nat, q: nat)
    requires IsAt(blob, Micn, p) && IsAt(blob, Micn, q) && p < q
    ensures q >= p + 4
  {
    assert blob[q] == Micn[0] by {
      assert blob[q..q + 4][0] == blob[q];
    }
    assert forall i :: p <= i < p + 4 ==> blob[i] == blob[p..p + 4][i - p];
  }

  /** Resuming 4 bytes past each match finds every signature from `from` on, in order. */
  lemma {:induction false} MarkersExact(blob: seq<byte>, from: nat)
    ensures forall p :: p in Markers(blob, from) <==> from <= p && IsAt(blob, Micn, p)
    ensures forall k :: 0 < k < |Markers(blob, from)| ==> Markers(blob, from)[k - 1] + 4 <= Markers(blob, from)[k]
    decreases |blob| - from
  {
    match Find(blob, Micn, from)
    case None =>
    case Some(m) =>
      MarkersExact(blob, m + 4);
      var rest := Markers(blob, m + 4);
      assert Markers(blob, from) == [m] + rest;
      forall p | from <= p && IsAt(blob, Micn, p)
        ensures p in Markers(blob, from)
      {
        if m < p < m + 4 {
          MicnNoOverlap(blob, m, p);
        }
      }
      if rest != [] {
        assert rest[0] in rest;
      }
  }

  /** The icon decoded from the record at `m`, numbered `index`. */
  function DecodeIcon(blob: seq<byte>, m: nat, index: nat): MiconIcon
  {
    var h := ReadHeader(blob, m);
    var raw := Slice(blob, m + HeaderSize, m + HeaderSize + h.size);
    var data := From(raw, PixelPrefix);
    MiconIcon(index, h.width, h.height, h.background, Rows(PixelRun(data, h.width * h.height), h.width))
  }

  /** The icons of the records at `marks`, numbered on from `index`. */
  function IconsAt(blob: seq<byte>, marks: seq<nat>, index: nat): seq<MiconIcon>
  {
    seq(|marks|, k requires 0 <= k < |marks| => DecodeIcon(blob, marks[k], index + k))
  }

  /** `load_micon_icons` over the file's bytes. */
  function LoadIcons(blob: seq<byte>): seq<MiconIcon>
  {
    IconsAt(blob, Markers(blob, 0), 0)
  }

  lemma IconsAtSnoc(blob: seq<byte>, marks: seq<nat>, m: nat)
    ensures IconsAt(blob, marks + [m], 0) == IconsAt(blob, marks, 0) + [DecodeIcon(blob, m, |marks|)]
  {
    var a, b := IconsAt(blob, marks + [m], 0), IconsAt(blob, marks, 0) + [DecodeIcon(blob, m, |marks|)];
    assert |a| == |b|;
    forall k | 0 <= k < |a|
      ensures a[k] == b[k]
    {
      if k < |marks| {
        assert (marks + [m])[k] == marks[k];
      }
    }
  }

  /** One icon per "MICN" signature in the file, in file order, numbered 0, 1, 2, ... */
  lemma LoadIconsSpec(blob: seq<byte>)
    ensures forall p :: p in Markers(blob, 0) <==> IsAt(blob, Micn, p)
    ensures forall k :: 0 < k < |Markers(blob, 0)| ==> Markers(blob, 0)[k - 1] < Markers(blob, 0)[k]
    ensures |LoadIcons(blob)| == |Markers(blob, 0)|
    ensures forall k :: 0 <= k < |LoadIcons(blob)| ==> LoadIcons(blob)[k].index == k
  {
    MarkersExact(blob, 0);
  }

  /** A decoded icon has at most `height` rows of at most `width` pixels. */
  lemma DecodedIconFits(blob: seq<byte>, m: nat, index: nat)
    ensures Fits(DecodeIcon(blob, m, index))
  {
    var icon := DecodeIcon(blob, m, index);
    RowsFit(PixelRun(From(Slice(blob, m + HeaderSize, m + HeaderSize + ReadHeader(blob, m).size), PixelPrefix),
                     icon.width * icon.height), icon.width, icon.height);
  }

  /** Every row of the icon lies inside its width and height. */
  predicate Fits(icon: MiconIcon)
  {
    |icon.pixels| <= icon.height && forall y :: 0 <= y < |icon.pixels| ==> |icon.pixels[y]| <= icon.width
  }

  /** The record at `m`: the header, then the pixel loop over the data past its 8-byte
      prefix. */
  method ReadIcon(blob: seq<byte>, m: nat, index: nat) returns (icon: MiconIcon)
    ensures icon == DecodeIcon(blob, m, index)
  {
    var packed := LittleEndian(Slice(blob, m + 8, m + 12));
    var size := packed % 0x1_0000;
    var width := (packed / 0x1_0000) % 0x100;
    var height := (packed / 0x100_0000) % 0x100;
    var background := LittleEndian(Slice(blob, m + 12, m + 16)) % 16;
    var raw := Slice(blob, m + HeaderSize, m + HeaderSize + size);
    var data := From(raw, PixelPrefix);
    var pixels := DecodePixels(data, width, height);
    icon := MiconIcon(index, width, height, background, pixels);
  }

  /** `load_micon_icons`: find each signature, decode its record, number it, and resume
      the search 4 bytes past it. */
  method LoadMiconIcons(blob: seq<byte>) returns (icons: seq<MiconIcon>)
    ensures icons == LoadIcons(blob)
  {
    icons := [];
    var searchPos := 0;
    var recordIndex := 0;
    ghost var done: seq<nat> := [];
    while true
      invariant searchPos <= |blob| && recordIndex == |done|
      invariant Markers(blob, 0) == done + Markers(blob, searchPos)
      invariant icons == IconsAt(blob, done, 0)
      decreases |blob| - searchPos
    {
      var markerPos := Find(blob, Micn, searchPos);
      if markerPos.None? {
        assert Markers(blob, searchPos) == [];
        assert done + [] == done;
        break;
      }
      var m := markerPos.value;
      var icon := ReadIcon(blob, m, recordIndex);
      MarkersStep(blob, searchPos, m);
      AppendAssoc3(done, [m], Markers(blob, m + 4));
      IconsAtSnoc(blob, done, m);
      icons := icons + [icon];
      done := done + [m];
      recordIndex := recordIndex + 1;
      searchPos := m + 4;
    }
  }

  // ---------------------------------------------------------------------------
  // Rendering

  type Rgb = (byte, byte, byte)

  datatype Rgba = Rgba(r: byte, g: byte, b: byte, a: byte)

  const Transparent: Rgba := Rgba(0, 0, 0, 0)

  /** The 16-colour EGA palette of the BGI, the default palette of `render_image`. */
  const EgaPalette: seq<Rgb> := [
    (0, 0, 0), (0, 0, 170), (0, 170, 0), (0, 170, 170),
    (170, 0, 0), (170, 0, 170), (170, 85, 0), (170, 170, 170),
    (85, 85, 85), (85, 85, 255), (85, 255, 85), (85, 255, 255),
    (255, 85, 85), (255, 85, 255), (255, 255, 85), (255, 255, 255)]

  /** The colours of sides 0 to 3 (green, red, blue, yellow). */
  const TeamColours: map<int, Rgb> := map[
    0 := (48, 190, 96), 1 := (208, 40, 40), 2 := (54, 120, 210), 3 := (215, 190, 60)]

  function Opaque(c: Rgb): Rgba
  {
    Rgba(c.0, c.1, c.2, 255)
  }

  /** The colour that replaces the background index: the side's colour when the side is
      one of the four. */
  function SideColour(side: Option<int>): Option<Rgb>
  {
    if side.Some? && side.value in TeamColours then Some(TeamColours[side.value]) else None
  }

  /** The colour of one pixel: index 0 is transparent; the background index takes the
      side's colour when there is one; any other index takes its palette colour, opaque. */
  function PixelColour(index: nibble, background: nibble, team: Option<Rgb>, palette: seq<Rgb>): (c: Rgba)
    requires |palette| > 0
    ensures c.a == 0 <==> index == 0
  {
    if index == 0 then Transparent
    else if team.Some? && index == background then Opaque(team.value)
    else Opaque(palette[index % |palette|])
  }

  /** A side only recolours the background index: every other pixel has the colour it has
      with no side, and the background index takes exactly the side's colour. */
  lemma SideRecoloursBackgroundOnly(index: nibble, background: nibble, side: Option<int>, palette: seq<Rgb>)
    requires |palette| > 0
    ensures index == 0 || index != background || SideColour(side).None? ==>
              PixelColour(index, background, SideColour(side), palette) == PixelColour(index, background, None, palette)
    ensures index != 0 && index == background && side.Some? && 0 <= side.value < 4 ==>
              PixelColour(index, background, SideColour(side), palette) == Opaque(TeamColours[side.value])
  {
  }

  /** Two different sides render an icon differently exactly at its non-transparent
      background pixels. */
  lemma SidesDiffer(index: nibble, background: nibble, s1: int, s2: int, palette: seq<Rgb>)
    requires |palette| > 0 && 0 <= s1 < 4 && 0 <= s2 < 4 && s1 != s2
    ensures PixelColour(index, background, SideColour(Some(s1)), palette)
              != PixelColour(index, background, SideColour(Some(s2)), palette)
            <==> index != 0 && index == background
  {
    assert TeamColours[s1] != TeamColours[s2];
  }

  /** The colour of `(x, y)` in the rendered image: the pixel's colour where the icon has a
      pixel, transparent elsewhere (`Image.new("RGBA", …)` starts transparent). */
  function ImagePixel(icon: MiconIcon, side: Option<int>, palette: seq<Rgb>, x: nat, y: nat): Rgba
    requires |palette| > 0
  {
    if y < |icon.pixels| && x < |icon.pixels[y]| then
      PixelColour(icon.pixels[y][x], icon.backgroundIndex, SideColour(side), palette)
    else Transparent
  }

  /** `MiconIcon.render_image` at scale 1: a `width` by `height` image, indexed `[x, y]`,
      filled by the `putpixel` loop over the icon's rows. */
  method RenderImage(icon: MiconIcon, side: Option<int>, palette: seq<Rgb>) returns (img: array2<Rgba>)
    requires |palette| > 0 && Fits(icon)
    ensures fresh(img) && img.Length0 == icon.width && img.Length1 == icon.height
    ensures forall x, y :: 0 <= x < img.Length0 && 0 <= y < img.Length1 ==>
              img[x, y] == ImagePixel(icon, side, palette, x, y)
  {
    var team := SideColour(side);
    img := new Rgba[icon.width, icon.height]((x, y) => Transparent);
    var y := 0;
    while y < |icon.pixels|
      invariant 0 <= y <= |icon.pixels|
      invariant forall a, b :: 0 <= a < img.Length0 && 0 <= b < img.Length1 ==>
                  img[a, b] == if b < y then ImagePixel(icon, side, palette, a, b) else Transparent
    {
      var row := icon.pixels[y];
      var x := 0;
      while x < |row|
        invariant 0 <= x <= |row|
        invariant forall a, b :: 0 <= a < img.Length0 && 0 <= b < img.Length1 ==>
                    img[a, b] == if b < y || (b == y && a < x) then ImagePixel(icon, side, palette, a, b) else Transparent
      {
        img[x, y] := PixelColour(row[x], icon.backgroundIndex, team, palette);
        x := x + 1;
      }
      y := y + 1;
    }
  }
}
