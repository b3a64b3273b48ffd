/**
 * Drawing arguments of the Win32 GDI print command (win/tkWinGDI.c): the
 * dash specification parser of GdiMakePen, the BGR buffer GdiPhoto builds
 * and its destination size, and the copy-rectangle normalisation of
 * GdiCopyBits.
 */
module WinGdiDraw {
  import opened Wrappers
  import opened WinGdi

  // ---------------------------------------------------------------------
  // Dash specifications (GdiMakePen)
  // ---------------------------------------------------------------------

  /** pStyleData holds 24 entries. */
  const MaxDashes: nat := 24

  /** The strtok delimiters " \t,;". */
  predicate IsDashDelimiter(c: char)
  {
    c == ' ' || c == '\t' || c == ',' || c == ';'
  }

  function TokenLength(s: string): (n: nat)
    ensures n <= |s|
    ensures forall i :: 0 <= i < n ==> !IsDashDelimiter(s[i])
    ensures n < |s| ==> IsDashDelimiter(s[n])
  {
    if |s| > 0 && !IsDashDelimiter(s[0]) then 1 + TokenLength(s[1..]) else 0
  }

  /** The tokens strtok returns: maximal runs of non-delimiters. */
  function Tokens(s: string): seq<string>
    decreases |s|
  {
    if |s| == 0 then []
    else if IsDashDelimiter(s[0]) then Tokens(s[1..])
    else
      var n := TokenLength(s);
      [s[..n]] + Tokens(s[n..])
  }

  /** Each token is nonempty and free of delimiters. */
  lemma {:induction false} TokensWellFormed(s: string)
    ensures forall t :: t in Tokens(s) ==> |t| > 0 && forall i :: 0 <= i < |t| ==> !IsDashDelimiter(t[i])
    decreases |s|
  {
    if |s| > 0 {
      if IsDashDelimiter(s[0]) {
        TokensWellFormed(s[1..]);
      } else {
        TokensWellFormed(s[TokenLength(s)..]);
      }
    }
  }

  /** Joining nonempty delimiter-free words with single blanks and splitting
   *  gives the words back. */
  lemma {:induction false} TokensOfJoined(words: seq<string>)
    requires forall k :: 0 <= k < |words| ==> |words[k]| > 0
    requires forall k, i :: 0 <= k < |words| && 0 <= i < |words[k]| ==> !IsDashDelimiter(words[k][i])
    ensures Tokens(Joined(words)) == words
  {
    if |words| > 0 {
      var w := words[0];
      var tail := words[1..];
      var j := Joined(words);
      var rest := if |tail| == 0 then "" else " " + Joined(tail);
      assert j == w + rest;
      TokenOfWord(w, rest);
      assert j[..|w|] == w;
      assert j[|w|..] == rest;
      TokensOfJoined(tail);
      if |tail| > 0 {
        assert rest[1..] == Joined(tail);
      }
    }
  }

  lemma {:induction false} TokenOfWord(w: string, rest: string)
    requires forall i :: 0 <= i < |w| ==> !IsDashDelimiter(w[i])
    requires |rest| == 0 || IsDashDelimiter(rest[0])
    ensures TokenLength(w + rest) == |w|
  {
    if |w| > 0 {
      assert (w + rest)[1..] == w[1..] + rest;
      TokenOfWord(w[1..], rest);
    }
  }

  function Joined(words: seq<string>): string
  {
    if |words| == 0 then ""
    else if |words| == 1 then words[0]
    else words[0] + " " + Joined(words[1..])
  }

  /** An `atoi` result stored in a DWORD. */
  function Dword(v: int): nat
  {
    v % U32
  }

  /** The dash length a character stands for. */
  function DashOfChar(c: char): Option<nat>
  {
    if c == ' ' then Some(8)
    else if c == ',' then Some(4)
    else if c == '_' then Some(6)
    else if c == '-' then Some(4)
    else if c == '.' then Some(2)
    else None
  }

  /** The dashes of the characters of s, others ignored. */
  function DashesOfChars(s: string): seq<nat>
  {
    if |s| == 0 then []
    else
      DashesOfChars(s[..|s| - 1]) +
        (match DashOfChar(s[|s| - 1]) case Some(d) => [d] case None => [])
  }

  function Min(a: nat, b: nat): nat
  {
    if a <= b then a else b
  }

  /** The entries a dash specification yields: a spec starting with a digit
   *  is a list of numbers (the first 24 tokens); otherwise each of the
   *  first 24 characters may give one dash. */
  function DashEntries(data: string): seq<nat>
  {
    if |data| > 0 && IsDigit(data[0]) then
      var toks := Tokens(data);
      seq(Min(|toks|, MaxDashes), i requires 0 <= i < Min(|toks|, MaxDashes) => Dword(Atoi(toks[i])))
    else
      DashesOfChars(data[..Min(|data|, MaxDashes)])
  }

  lemma {:induction false} DashesOfCharsBound(s: string)
    ensures |DashesOfChars(s)| <= |s|
    ensures forall i :: 0 <= i < |DashesOfChars(s)| ==> DashesOfChars(s)[i] in {2, 4, 6, 8}
  {
    if |s| > 0 {
      DashesOfCharsBound(s[..|s| - 1]);
    }
  }

  /** No more than 24 entries are kept; character dashes are 2, 4, 6 or 8. */
  lemma DashEntriesBound(data: string)
    ensures |DashEntries(data)| <= MaxDashes
    ensures !(|data| > 0 && IsDigit(data[0])) ==>
              forall i :: 0 <= i < |DashEntries(data)| ==> DashEntries(data)[i] in {2, 4, 6, 8}
  {
    if !(|data| > 0 && IsDigit(data[0])) {
      DashesOfCharsBound(data[..Min(|data|, MaxDashes)]);
    }
  }

  /** A number list of nonnegative values is kept as written. */
  lemma DashNumbers(values: seq<nat>)
    requires 0 < |values| <= MaxDashes
    requires forall k :: 0 <= k < |values| ==> values[k] < U32
    ensures DashEntries(Joined(DecimalList(values))) == values
  {
    var words := DecimalList(values);
    var j := Joined(words);
    NumberTokens(values);
    JoinedStartsWith(words);
    assert IsDigit(j[0]);
    var e := DashEntries(j);
    assert |e| == |values|;
    forall k | 0 <= k < |values|
      ensures e[k] == values[k]
    {
      DigitsAtoi(values[k]);
    }
  }

  /** Decimal numbers joined by blanks split back into the numbers. */
  lemma NumberTokens(values: seq<nat>)
    ensures Tokens(Joined(DecimalList(values))) == DecimalList(values)
  {
    var words := DecimalList(values);
    forall k | 0 <= k < |words|
      ensures |words[k]| > 0 && forall i :: 0 <= i < |words[k]| ==> !IsDashDelimiter(words[k][i])
    {
      assert words[k] == Digits(values[k]);
    }
    TokensOfJoined(words);
  }

  lemma DigitsAtoi(v: nat)
    requires v < U32
    ensures Dword(Atoi(Digits(v))) == v
  {
    AtoiOfDigitsAlone(v);
  }

  lemma JoinedStartsWith(words: seq<string>)
    requires |words| > 0 && |words[0]| > 0
    ensures |Joined(words)| > 0 && Joined(words)[0] == words[0][0]
  {
  }

  function DecimalList(values: seq<nat>): (r: seq<string>)
    ensures |r| == |values| && forall k :: 0 <= k < |values| ==> r[k] == Digits(values[k])
  {
    seq(|values|, k requires 0 <= k < |values| => Digits(values[k]))
  }

  /** The dash part of GdiMakePen: fills the 24-entry style buffer and
   *  returns the number of entries; entries past the count keep whatever
   *  an earlier pen left there. */
  method ParseDashes(data: string, style: array<nat>) returns (count: nat)
    requires style.Length == MaxDashes
    modifies style
    ensures count <= MaxDashes
    ensures count == |DashEntries(data)|
    ensures style[..count] == DashEntries(data)
    ensures style[count..] == old(style[count..])
  {
    if |data| > 0 && IsDigit(data[0]) {
      count := NumberDashes(Tokens(data), style);
    } else {
      count := CharDashes(data[..Min(|data|, MaxDashes)], style);
    }
  }

  /** The strtok loop: `atoi` of each of the first 24 tokens. */
  method NumberDashes(toks: seq<string>, style: array<nat>) returns (count: nat)
    requires style.Length == MaxDashes
    modifies style
    ensures count == Min(|toks|, MaxDashes)
    ensures forall k :: 0 <= k < count ==> style[k] == Dword(Atoi(toks[k]))
    ensures style[count..] == old(style[count..])
  {
    count := 0;
    var n := Min(|toks|, MaxDashes);
    for i := 0 to n
      invariant count == i
      invariant forall k :: 0 <= k < i ==> style[k] == Dword(Atoi(toks[k]))
      invariant style[i..] == old(style[i..])
    {
      style[count] := Dword(Atoi(toks[i]));
      count := count + 1;
    }
  }

  /** The character loop over at most 24 characters. */
  method CharDashes(s: string, style: array<nat>) returns (count: nat)
    requires style.Length == MaxDashes && |s| <= MaxDashes
    modifies style
    ensures count <= |s|
    ensures style[..count] == DashesOfChars(s)
    ensures style[count..] == old(style[count..])
  {
    count := 0;
    for i := 0 to |s|
      invariant count <= i
      invariant style[..count] == DashesOfChars(s[..i])
      invariant style[count..] == old(style[count..])
    {
      assert s[..i + 1][..i] == s[..i];
      match DashOfChar(s[i]) {
        case Some(d) =>
          style[count] := d;
          count := count + 1;
        case None =>
      }
    }
    assert s[..|s|] == s;
  }

  /** The pen's dash style: PS_USERSTYLE with the entries, or PS_SOLID. */
  datatype PenDash = Solid | UserStyle(dashes: seq<nat>)

  /** The pen is PS_USERSTYLE when a dash style was asked for, unless its
   *  data gave no entry, which switches dashing off; a dash style without
   *  data keeps PS_USERSTYLE with no entries. */
  function PenDashOf(dashstyle: bool, data: Option<string>): (r: PenDash)
    ensures r.UserStyle? <==> dashstyle && (data.None? || |DashEntries(data.value)| > 0)
    ensures r.UserStyle? && data.Some? ==> 0 < |r.dashes| <= MaxDashes && r.dashes == DashEntries(data.value)
    ensures r.UserStyle? && data.None? ==> r.dashes == []
  {
    if !dashstyle then Solid
    else if data.None? then UserStyle([])
    else if |DashEntries(data.value)| > 0 then
      DashEntriesBound(data.value);
      UserStyle(DashEntries(data.value))
    else Solid
  }

  // ---------------------------------------------------------------------
  // Copy rectangle (GdiCopyBits)
  // ---------------------------------------------------------------------

  datatype CopyRect = CopyRect(srcX: int, srcY: int, srcW: int, srcH: int,
                               dstX: int, dstY: int, dstW: int, dstH: int)

  /** The normalisation GdiCopyBits applies before copying a window of size
   *  wid x hgt (no -scale). */
  method NormalizeCopy(r: CopyRect, wid: int, hgt: int) returns (n: CopyRect)
    requires wid >= 0 && hgt >= 0
    ensures n.srcX == (if r.srcX < 0 then 0 else r.srcX)
    ensures n.srcY == (if r.srcY < 0 then 0 else r.srcY)
    ensures n.dstX == (if r.dstX < 0 then 0 else r.dstX)
    ensures n.dstY == (if r.dstY < 0 then 0 else r.dstY)
    ensures 0 < r.srcW <= wid ==> n.srcW == r.srcW
    ensures !(0 < r.srcW <= wid) ==> n.srcW == wid
    ensures 0 < r.srcH <= hgt ==> n.srcH == r.srcH
    ensures !(0 < r.srcH <= hgt) ==> n.srcH == hgt
    ensures 0 <= n.srcW <= wid && 0 <= n.srcH <= hgt
    ensures r.dstW == 0 || r.dstH == 0 ==> n.dstW == n.srcW && n.dstH == n.srcH
    ensures r.dstW != 0 && r.dstH != 0 && r.dstH != -1 ==> n.dstW == r.dstW && n.dstH == r.dstH
    ensures r.dstW > 0 && r.dstH == -1 ==>
              n.dstW == r.dstW && (n.dstH - 1) * (n.srcW + 1) <= n.srcH * r.dstW < n.dstH * (n.srcW + 1)
    ensures wid > 0 && hgt > 0 ==> n.dstW != 0 && n.dstH != 0
  {
    var srcX, srcY, srcW, srcH := r.srcX, r.srcY, r.srcW, r.srcH;
    var dstX, dstY := r.dstX, r.dstY;
    if srcX < 0 { srcX := 0; }
    if srcY < 0 { srcY := 0; }
    if dstX < 0 { dstX := 0; }
    if dstY < 0 { dstY := 0; }
    if srcW > wid || srcW <= 0 { srcW := wid; }
    if srcH > hgt || srcH <= 0 { srcH := hgt; }
    var dstW, dstH := CopyDestination(srcW, srcH, r.dstW, r.dstH);
    n := CopyRect(srcX, srcY, srcW, srcH, dstX, dstY, dstW, dstH);
  }

  /** The destination size step of GdiCopyBits: a height of -1 (three
   *  numbers given) keeps the source's aspect, and a zero width or height
   *  means the source size. */
  method CopyDestination(srcW: int, srcH: int, w: int, h: int) returns (dstW: int, dstH: int)
    requires srcW >= 0 && srcH >= 0
    ensures w == 0 || h == 0 ==> dstW == srcW && dstH == srcH
    ensures w != 0 && h != 0 && h != -1 ==> dstW == w && dstH == h
    ensures w > 0 && h == -1 ==> dstW == w && (dstH - 1) * (srcW + 1) <= srcH * w < dstH * (srcW + 1)
    ensures w < 0 && h == -1 ==>
              var q := CDiv(srcH * w, srcW + 1) + 1;
              if q == 0 then dstW == srcW && dstH == srcH else dstW == w && dstH == q
    ensures srcW > 0 && srcH > 0 ==> dstW != 0 && dstH != 0
  {
    dstW, dstH := w, h;
    if dstH == -1 {
      dstH := CDiv(srcH * dstW, srcW + 1) + 1;
      if dstW > 0 {
        HeightInProportion(srcH, dstW, srcW + 1);
      }
    }
    if dstH == 0 || dstW == 0 {
      dstH := srcH;
      dstW := srcW;
    }
  }

  /** h = a * w / d + 1 satisfies (h - 1) * d <= a * w < h * d, and is at
   *  least 1. */
  lemma HeightInProportion(a: int, w: int, d: int)
    requires a >= 0 && w > 0 && d > 0
    ensures CDiv(a * w, d) + 1 >= 1
    ensures (CDiv(a * w, d)) * d <= a * w < (CDiv(a * w, d) + 1) * d
  {
    var q := (a * w) / d;
    assert a * w == q * d + (a * w) % d;
  }

  // ---------------------------------------------------------------------
  // Photo buffer (GdiPhoto)
  // ---------------------------------------------------------------------

  /** The photo image block: pixel bytes, size, bytes per row (pitch),
   *  bytes per pixel and the byte offsets of red, green, blue and alpha. */
  datatype PhotoBlock = PhotoBlock(pixels: seq<bv8>, width: nat, height: nat,
                                   pitch: nat, pixelSize: nat, offset: seq<nat>)

  /** Where channel c of pixel i in row k lies in the block. */
  function SourceIndex(b: PhotoBlock, k: nat, i: nat, c: nat): nat
    requires c < |b.offset|
  {
    k * b.pitch + i * b.pixelSize + b.offset[c]
  }

  /** Every red, green and blue byte of the image lies inside the block. */
  predicate BlockReadable(b: PhotoBlock)
  {
    |b.offset| == 4 &&
    forall k: nat, i: nat, c: nat :: k < b.height && i < b.width && c < 3 ==>
      SourceIndex(b, k, i, c) < |b.pixels|
  }

  /** The DIB row length: 3 bytes a pixel rounded up to a multiple of 4. */
  function Stride(nx: nat): nat
  {
    (3 * nx + 3) / 4 * 4
  }

  lemma StrideIsPadded(nx: nat)
    ensures Stride(nx) % 4 == 0
    ensures 3 * nx <= Stride(nx) < 3 * nx + 4
  {
  }

  /** Where byte c of pixel i in row k goes in the buffer. */
  function DestIndex(sll: nat, k: nat, i: nat, c: nat): nat
  {
    k * sll + 3 * i + c
  }

  /** Byte c of pixel i lies inside row k, before the padding. */
  lemma DestInRow(sll: nat, nx: nat, k: nat, i: nat, c: nat)
    requires 3 * nx <= sll && i < nx && c < 3
    ensures k * sll <= DestIndex(sll, k, i, c) < k * sll + 3 * nx
  {
  }

  lemma {:induction false} RowInBuffer(sll: nat, k: nat, ny: nat)
    requires k < ny
    ensures k * sll + sll <= sll * ny
    decreases ny
  {
    assert sll * ny == sll * (ny - 1) + sll;
    if k + 1 < ny {
      RowInBuffer(sll, k, ny - 1);
    }
  }

  lemma {:induction false} EarlierRowBelow(sll: nat, k': nat, k: nat)
    requires k' < k
    ensures k' * sll + sll <= k * sll
    decreases k
  {
    assert k * sll == (k - 1) * sll + sll;
    if k' + 1 < k {
      EarlierRowBelow(sll, k', k - 1);
    }
  }

  /** Distinct pixels and channels go to distinct bytes. */
  lemma DestIndexInjective(sll: nat, nx: nat, k: nat, i: nat, c: nat, k': nat, i': nat, c': nat)
    requires 3 * nx <= sll && i < nx && c < 3 && i' < nx && c' < 3
    requires DestIndex(sll, k, i, c) == DestIndex(sll, k', i', c')
    ensures k == k' && i == i' && c == c'
  {
    DestInRow(sll, nx, k, i, c);
    DestInRow(sll, nx, k', i', c');
    if k < k' {
      EarlierRowBelow(sll, k, k');
    } else if k' < k {
      EarlierRowBelow(sll, k', k);
    }
  }

  /** The BGR buffer GdiPhoto hands to StretchDIBits: each pixel's blue,
   *  green and red bytes from the photo's offsets [2], [1] and [0]; the row
   *  padding is left as allocated. */
  method PhotoToBgr(b: PhotoBlock) returns (pbuf: array<bv8>)
    requires BlockReadable(b)
    ensures pbuf.Length == Stride(b.width) * b.height
    ensures forall k: nat, i: nat, c: nat :: k < b.height && i < b.width && c < 3 ==>
              DestIndex(Stride(b.width), k, i, c) < pbuf.Length &&
              pbuf[DestIndex(Stride(b.width), k, i, c)] == b.pixels[SourceIndex(b, k, i, 2 - c)]
  {
    var sll := Stride(b.width);
    StrideIsPadded(b.width);
    pbuf := new bv8[sll * b.height];
    for k := 0 to b.height
      invariant forall k': nat, i: nat, c: nat :: k' < k && i < b.width && c < 3 ==>
                  DestIndex(sll, k', i, c) < pbuf.Length &&
                  pbuf[DestIndex(sll, k', i, c)] == b.pixels[SourceIndex(b, k', i, 2 - c)]
    {
      FillRow(b, pbuf, sll, k);
      forall k': nat, i: nat, c: nat | k' < k && i < b.width && c < 3
        ensures DestIndex(sll, k', i, c) < k * sll
      {
        DestInRow(sll, b.width, k', i, c);
        EarlierRowBelow(sll, k', k);
      }
    }
  }

  /** One row of the nested loop; bytes outside the row's pixels keep their
   *  values. */
  method FillRow(b: PhotoBlock, pbuf: array<bv8>, sll: nat, k: nat)
    requires BlockReadable(b) && k < b.height
    requires 3 * b.width <= sll && pbuf.Length == sll * b.height
    modifies pbuf
    ensures forall i: nat, c: nat :: i < b.width && c < 3 ==>
              DestIndex(sll, k, i, c) < pbuf.Length &&
              pbuf[DestIndex(sll, k, i, c)] == b.pixels[SourceIndex(b, k, i, 2 - c)]
    ensures forall j :: 0 <= j < pbuf.Length && (j < k * sll || j >= k * sll + 3 * b.width) ==>
              pbuf[j] == old(pbuf[j])
  {
    RowInBuffer(sll, k, b.height);
    for i := 0 to b.width
      invariant forall i': nat, c: nat :: i' < i && c < 3 ==>
                  DestIndex(sll, k, i', c) < pbuf.Length &&
                  pbuf[DestIndex(sll, k, i', c)] == b.pixels[SourceIndex(b, k, i', 2 - c)]
      invariant forall j :: 0 <= j < pbuf.Length && (j < k * sll || j >= k * sll + 3 * i) ==>
                  pbuf[j] == old(pbuf[j])
    {
      var base := k * sll + 3 * i;
      StorePixel(pbuf, base, b.pixels[SourceIndex(b, k, i, 2)],
                 b.pixels[SourceIndex(b, k, i, 1)], b.pixels[SourceIndex(b, k, i, 0)]);
    }
  }

  /** Three bytes stored at base, base + 1 and base + 2. */
  method StorePixel(pbuf: array<bv8>, base: nat, b0: bv8, b1: bv8, b2: bv8)
    requires base + 3 <= pbuf.Length
    modifies pbuf
    ensures pbuf[base] == b0 && pbuf[base + 1] == b1 && pbuf[base + 2] == b2
    ensures forall j :: 0 <= j < pbuf.Length && (j < base || j >= base + 3) ==> pbuf[j] == old(pbuf[j])
  {
    pbuf[base] := b0;
    pbuf[base + 1] := b1;
    pbuf[base + 2] := b2;
  }

  // ---------------------------------------------------------------------
  // Photo destination size (GdiPhoto)
  // ---------------------------------------------------------------------

  /** The destination from `-destination`: fewer than two numbers is an
   *  error; two set only the origin (size 0 x 0); three add a width with
   *  height -1; four give both. */
  function DestinationArgs(count: nat, x: int, y: int, w: int, h: int): (r: Option<CopyRect>)
    ensures r.None? <==> count < 2
    ensures r.Some? ==> r.value.dstX == x && r.value.dstY == y
    ensures count == 2 ==> r == Some(CopyRect(0, 0, 0, 0, x, y, 0, 0))
    ensures count == 3 ==> r == Some(CopyRect(0, 0, 0, 0, x, y, w, -1))
    ensures count >= 4 ==> r == Some(CopyRect(0, 0, 0, 0, x, y, w, h))
  {
    if count < 2 then None
    else if count == 2 then Some(CopyRect(0, 0, 0, 0, x, y, 0, 0))
    else if count == 3 then Some(CopyRect(0, 0, 0, 0, x, y, w, -1))
    else Some(CopyRect(0, 0, 0, 0, x, y, w, h))
  }

  /** The size step as written: a width of at most 0 means the photo's own
   *  size, a height of at most 0 the height in proportion, ny * w / nx,
   *  which has no value when the photo is empty (None). */
  function PhotoDestSizeAsWritten(w: int, h: int, nx: nat, ny: nat): Option<(int, int)>
  {
    if w <= 0 then Some((nx, ny))
    else if h <= 0 then (if nx == 0 then None else Some((w, CDiv(ny * w, nx))))
    else Some((w, h))
  }

  /** An empty photo drawn with `-destination {x y w}` divides by zero. */
  lemma PhotoDestDividesByZero()
    ensures PhotoDestSizeAsWritten(10, -1, 0, 0).None?
  {
  }

  /** The corrected size step: an empty photo keeps its own height. */
  function PhotoDestSize(w: int, h: int, nx: nat, ny: nat): (r: (int, int))
    ensures w <= 0 ==> r == (nx, ny)
    ensures w > 0 && h > 0 ==> r == (w, h)
    ensures w > 0 && h <= 0 && nx > 0 ==> r.0 == w && r.1 * nx <= ny * w < (r.1 + 1) * nx
    ensures w > 0 && h <= 0 && nx == 0 ==> r == (w, ny)
  {
    if w <= 0 then (nx, ny)
    else if h <= 0 then
      if nx == 0 then (w, ny)
      else
        HeightInProportion(ny, w, nx);
        (w, CDiv(ny * w, nx))
    else (w, h)
  }

  /** Wherever the written step has a value, the corrected one agrees. */
  lemma PhotoDestSizeAgrees(w: int, h: int, nx: nat, ny: nat)
    ensures PhotoDestSizeAsWritten(w, h, nx, ny).Some? ==>
              PhotoDestSizeAsWritten(w, h, nx, ny).value == PhotoDestSize(w, h, nx, ny)
    ensures PhotoDestSizeAsWritten(w, h, nx, ny).None? <==> w > 0 && h <= 0 && nx == 0
  {
  }
}
