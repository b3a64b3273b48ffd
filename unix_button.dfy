/** The X11 button widget: the SVG check and radio indicators (their
 *  colour strings, cache names and the in-place substitution of colour
 *  placeholders in the SVG text), the relief and content offset chosen
 *  for display, the clipping of images to the window, and the geometry a
 *  button requests.  Colours, image and text sizes, font metrics and the
 *  window's size are inputs. */
module UnixButton {
  import opened Wrappers

  /** A 16-bit colour channel as the X server reports it. */
  type Channel = c: int | 0 <= c < 0x1_0000

  /** The value of a lower-case hexadecimal digit, or None. */
  function HexValue(c: char): Option<nat>
  {
    if '0' <= c <= '9' then Some(c as int - '0' as int)
    else if 'a' <= c <= 'f' then Some(c as int - 'a' as int + 10)
    else None
  }

  function HexDigit(n: nat): (c: char)
    requires n < 16
    ensures HexValue(c) == Some(n)
  {
    if n < 10 then ('0' as int + n) as char else ('a' as int + n - 10) as char
  }

  /** A byte as two lower-case hexadecimal digits. */
  function HexByte(b: nat): (r: string)
    requires b < 256
    ensures |r| == 2 && HexValue(r[0]).Some? && HexValue(r[1]).Some?
    ensures HexValue(r[0]).value * 16 + HexValue(r[1]).value == b
  {
    [HexDigit(b / 16), HexDigit(b % 16)]
  }

  /** A colour as six lower-case hexadecimal digits. */
  predicate IsColorString(c: string)
  {
    |c| == 6 && forall k :: 0 <= k < 6 ==> HexValue(c[k]).Some?
  }

  /** Reads the byte spelled by two digits of a colour string. */
  function ByteAt(c: string, k: nat): nat
    requires IsColorString(c) && k < 3
  {
    HexValue(c[2 * k]).value * 16 + HexValue(c[2 * k + 1]).value
  }

  /** "RRGGBB": the first two of the four hexadecimal digits of each
   *  channel. */
  function ColorToStr(red: Channel, green: Channel, blue: Channel): (r: string)
    ensures IsColorString(r)
  {
    HexByte(red / 256) + HexByte(green / 256) + HexByte(blue / 256)
  }

  /** Each pair of digits spells the high byte of its channel. */
  lemma ColorToStrBytes(red: Channel, green: Channel, blue: Channel)
    ensures var r := ColorToStr(red, green, blue);
            ByteAt(r, 0) == red / 256 && ByteAt(r, 1) == green / 256 && ByteAt(r, 2) == blue / 256
  {
    var r := ColorToStr(red, green, blue);
    assert r[0..2] == HexByte(red / 256) && r[2..4] == HexByte(green / 256) && r[4..6] == HexByte(blue / 256);
  }

  /** Two colours that agree in every channel's high byte have the same
   *  string, and conversely. */
  lemma ColorToStrIff(r1: Channel, g1: Channel, b1: Channel, r2: Channel, g2: Channel, b2: Channel)
    ensures ColorToStr(r1, g1, b1) == ColorToStr(r2, g2, b2) <==>
            r1 / 256 == r2 / 256 && g1 / 256 == g2 / 256 && b1 / 256 == b2 / 256
  {
    var s1 := ColorToStr(r1, g1, b1);
    var s2 := ColorToStr(r2, g2, b2);
    ColorToStrBytes(r1, g1, b1);
    ColorToStrBytes(r2, g2, b2);
    if s1 == s2 {
      assert ByteAt(s1, 0) == ByteAt(s2, 0) && ByteAt(s1, 1) == ByteAt(s2, 1) && ByteAt(s1, 2) == ByteAt(s2, 2);
    }
  }

  /** The colour placeholders of the SVG indicator templates. */
  const Dark: string := "DARKKK"
  const Light: string := "LIGHTT"
  const Interior: string := "INTROR"
  const Indicator: string := "INDCTR"

  /** `pat` occurs in `s` at position i. */
  predicate OccursAt(s: seq<char>, pat: seq<char>, i: int)
  {
    0 <= i && i + |pat| <= |s| && forall k :: 0 <= k < |pat| ==> s[i + k] == pat[k]
  }

  /** Position i lies inside an occurrence of `pat`. */
  predicate Covered(s: seq<char>, pat: seq<char>, i: int)
  {
    exists j :: i - |pat| < j <= i && OccursAt(s, pat, j)
  }

  /** strstr from position `from`: the first occurrence at or after it. */
  function Find(s: seq<char>, pat: seq<char>, from: nat): (r: Option<nat>)
    ensures r.Some? ==> from <= r.value && OccursAt(s, pat, r.value) &&
                        forall k :: from <= k < r.value ==> !OccursAt(s, pat, k)
    ensures r.None? ==> forall k :: from <= k ==> !OccursAt(s, pat, k)
    decreases |s| - from
  {
    if from + |pat| > |s| then None
    else if OccursAt(s, pat, from) then Some(from)
    else Find(s, pat, from + 1)
  }

  /** `q` cannot start `d` positions after `p` starts with the two
   *  overlapping. */
  predicate Clash(p: seq<char>, q: seq<char>, d: nat)
  {
    forall k :: d <= k < |p| && k - d < |q| ==> p[k] == q[k - d]
  }

  /** No occurrence of `q` starts inside an occurrence of `p`. */
  predicate Disjoint(p: seq<char>, q: seq<char>)
  {
    forall d :: 0 < d < |p| ==> !Clash(p, q, d)
  }

  /** Two occurrences of disjoint patterns do not overlap. */
  lemma NoOverlap(s: seq<char>, p: seq<char>, q: seq<char>, i: int, j: int)
    requires Disjoint(p, q) && OccursAt(s, p, i) && OccursAt(s, q, j)
    ensures !(i < j < i + |p|)
  {
    if i < j < i + |p| {
      var d := j - i;
      forall k | d <= k < |p| && k - d < |q|
        ensures p[k] == q[k - d]
      {
        assert s[i + k] == p[k];
        assert s[j + (k - d)] == q[k - d];
      }
      assert Clash(p, q, d);
    }
  }

  /** A colour character is a digit or a lower-case letter, none of which
   *  a placeholder contains. */
  predicate Foreign(c: char, pat: seq<char>)
  {
    forall k :: 0 <= k < |pat| ==> pat[k] != c
  }

  predicate IsPlaceholder(p: string)
  {
    p == Dark || p == Light || p == Interior || p == Indicator
  }

  /** The placeholders are six upper-case letters long and none overlaps
   *  itself or another. */
  lemma PlaceholdersDisjoint(p: string, q: string)
    requires IsPlaceholder(p) && IsPlaceholder(q)
    ensures |p| == 6 && Disjoint(p, q)
  {
    forall d | 0 < d < 6
      ensures !Clash(p, q, d)
    {
      assert p[d] != q[0] || (d + 1 < 6 && p[d + 1] != q[1]);
    }
  }

  /** Colour digits never occur in a placeholder. */
  lemma ColorIsForeign(c: string, p: string)
    requires IsColorString(c) && IsPlaceholder(p)
    ensures forall k :: 0 <= k < 6 ==> Foreign(c[k], p)
  {
  }
  /** Everything from position b on is as in `s`. */
  predicate Ahead(t: seq<char>, s: seq<char>, b: int)
  {
    |t| == |s| && forall i :: b <= i < |s| ==> i >= 0 ==> t[i] == s[i]
  }

  /** Every occurrence of `pat` in `s` that starts before b now holds
   *  `color`. */
  ghost predicate PaintedBelow(t: seq<char>, s: seq<char>, pat: seq<char>, color: seq<char>, b: int)
  {
    |t| == |s| && |color| == |pat| &&
    forall j, k :: OccursAt(s, pat, j) && j < b && 0 <= k < |pat| ==> t[j + k] == color[k]
  }

  /** Every position of `s` outside all occurrences of `pat` is kept. */
  ghost predicate Kept(t: seq<char>, s: seq<char>, pat: seq<char>)
  {
    |t| == |s| && forall i :: 0 <= i < |s| && !Covered(s, pat, i) ==> t[i] == s[i]
  }

  /** `pat` occurs nowhere in `t`. */
  ghost predicate Absent(t: seq<char>, pat: seq<char>)
  {
    forall j :: !OccursAt(t, pat, j)
  }

  /** The replacement the source's loop performs, stated without the loop:
   *  each occurrence of `pat` in `s` holds `color`, nothing else changed. */
  ghost predicate Replaced(t: seq<char>, s: seq<char>, pat: seq<char>, color: seq<char>)
  {
    PaintedBelow(t, s, pat, color, |s|) && Kept(t, s, pat)
  }

  /** A colour whose characters the pattern does not contain. */
  predicate ForeignColor(color: seq<char>, pat: seq<char>)
  {
    forall k :: 0 <= k < |color| ==> Foreign(color[k], pat)
  }

  /** A window holding a character foreign to the pattern is no
   *  occurrence. */
  lemma NotAt(t: seq<char>, pat: seq<char>, j: int, i: int)
    requires 0 <= j <= i < j + |pat| && i < |t| && Foreign(t[i], pat)
    ensures !OccursAt(t, pat, j)
  {
    assert pat[i - j] != t[j + (i - j)];
  }

  /** Windows with the same characters hold the same occurrences. */
  lemma SameWindow(s: seq<char>, t: seq<char>, pat: seq<char>, j: nat)
    requires j + |pat| <= |s| == |t|
    requires forall i :: j <= i < j + |pat| ==> t[i] == s[i]
    ensures OccursAt(t, pat, j) == OccursAt(s, pat, j)
  {
    forall k | 0 <= k < |pat|
      ensures (t[j + k] == pat[k]) == (s[j + k] == pat[k])
    {
      var i := j + k;
      assert t[i] == s[i];
    }
  }

  /** A position inside an original occurrence now holds a colour
   *  character, foreign to every pattern the colour is foreign to. */
  lemma CoveredIsForeign(t: seq<char>, s: seq<char>, pat: seq<char>, color: seq<char>, i: int,
                         other: seq<char>)
    requires Replaced(t, s, pat, color) && ForeignColor(color, other)
    requires 0 <= i < |s| && Covered(s, pat, i)
    ensures Foreign(t[i], other)
  {
    var j0 :| i - |pat| < j0 <= i && OccursAt(s, pat, j0);
    assert t[j0 + (i - j0)] == color[i - j0];
  }

  /** An original occurrence now starts with a colour character. */
  lemma PaintedNotAt(t: seq<char>, s: seq<char>, pat: seq<char>, color: seq<char>, j: nat)
    requires |pat| > 0 && PaintedBelow(t, s, pat, color, |s|) && ForeignColor(color, pat)
    requires OccursAt(s, pat, j)
    ensures !OccursAt(t, pat, j)
  {
    assert t[j + 0] == color[0];
    NotAt(t, pat, j, j);
  }

  /** A window with a changed position holds a colour character. */
  lemma ChangedNotAt(t: seq<char>, s: seq<char>, pat: seq<char>, color: seq<char>, j: nat, i: nat)
    requires Replaced(t, s, pat, color) && ForeignColor(color, pat)
    requires j <= i < j + |pat| && i < |s| && t[i] != s[i]
    ensures !OccursAt(t, pat, j)
  {
    CoveredIsForeign(t, s, pat, color, i, pat);
    NotAt(t, pat, j, i);
  }

  /** After the replacement the pattern does not occur at j. */
  lemma NoneAt(t: seq<char>, s: seq<char>, pat: seq<char>, color: seq<char>, j: nat)
    requires |pat| > 0 && Replaced(t, s, pat, color) && ForeignColor(color, pat)
    requires j + |pat| <= |t|
    ensures !OccursAt(t, pat, j)
  {
    if OccursAt(s, pat, j) {
      PaintedNotAt(t, s, pat, color, j);
    } else if i :| j <= i < j + |pat| && t[i] != s[i] {
      ChangedNotAt(t, s, pat, color, j, i);
    } else {
      SameWindow(s, t, pat, j);
    }
  }

  /** After the replacement no occurrence of the pattern is left. */
  lemma ReplacedLeavesNone(t: seq<char>, s: seq<char>, pat: seq<char>, color: seq<char>)
    requires |pat| > 0 && Replaced(t, s, pat, color) && ForeignColor(color, pat)
    ensures Absent(t, pat)
  {
    forall j: int | 0 <= j && j + |pat| <= |t|
      ensures !OccursAt(t, pat, j)
    {
      NoneAt(t, s, pat, color, j);
    }
  }

  /** The text after writing `color` at q over `t0`. */
  ghost predicate PastedAt(t1: seq<char>, t0: seq<char>, color: seq<char>, q: nat)
  {
    |t1| == |t0| && |color| == 6 &&
    forall i :: 0 <= i < |t0| ==> t1[i] == if q <= i < q + 6 then color[i - q] else t0[i]
  }

  /** The next occurrence found from q after the write lies past the
   *  written colour and is an occurrence of the original text. */
  lemma NextOccurrence(s: seq<char>, t0: seq<char>, t1: seq<char>, pat: seq<char>, color: seq<char>,
                       q: nat, v: nat)
    requires |pat| == 6 && ForeignColor(color, pat)
    requires q + 6 <= |s| && Ahead(t0, s, q) && PastedAt(t1, t0, color, q)
    requires q <= v && OccursAt(t1, pat, v)
    ensures q + 6 <= v && OccursAt(s, pat, v)
  {
    if v < q + 6 {
      NotAt(t1, pat, v, q + 5);
    }
    SameWindow(s, t1, pat, v);
  }

  /** The write paints the occurrence at q and keeps those before it. */
  lemma StepPainted(s: seq<char>, t0: seq<char>, t1: seq<char>, pat: seq<char>, color: seq<char>,
                    q: nat, b: nat)
    requires |pat| == 6 && Disjoint(pat, pat)
    requires OccursAt(s, pat, q) && q + 6 <= b <= |s|
    requires Ahead(t0, s, q) && PaintedBelow(t0, s, pat, color, q) && PastedAt(t1, t0, color, q)
    requires forall k :: q <= k < b ==> !OccursAt(t1, pat, k)
    ensures PaintedBelow(t1, s, pat, color, b)
  {
    forall j, k | OccursAt(s, pat, j) && j < b && 0 <= k < 6
      ensures t1[j + k] == color[k]
    {
      if j < q {
        NoOverlap(s, pat, pat, j, q);
      } else if q < j {
        NoOverlap(s, pat, pat, q, j);
        SameWindow(s, t1, pat, j);
      }
    }
  }

  /** The write changes only positions of the occurrence at q. */
  lemma StepKept(s: seq<char>, t0: seq<char>, t1: seq<char>, pat: seq<char>, color: seq<char>, q: nat)
    requires |pat| == 6 && OccursAt(s, pat, q)
    requires Kept(t0, s, pat) && PastedAt(t1, t0, color, q)
    ensures Kept(t1, s, pat)
  {
    forall i | 0 <= i < |s| && q <= i < q + 6
      ensures Covered(s, pat, i)
    {
      assert OccursAt(s, pat, q);
    }
  }

  /** One turn of the replacement loop keeps its invariant: the occurrence
   *  at q is overwritten, and the next one found from q in the new text is
   *  the next one of the original text. */
  lemma ReplaceStep(s: seq<char>, t0: seq<char>, t1: seq<char>, pat: seq<char>, color: seq<char>,
                    q: nat, next: Option<nat>)
    requires |pat| == 6 && Disjoint(pat, pat) && |color| == 6 && ForeignColor(color, pat)
    requires OccursAt(s, pat, q)
    requires Ahead(t0, s, q) && PaintedBelow(t0, s, pat, color, q) && Kept(t0, s, pat)
    requires PastedAt(t1, t0, color, q)
    requires next == Find(t1, pat, q)
    ensures next.Some? ==> q + 6 <= next.value && OccursAt(s, pat, next.value)
    ensures Ahead(t1, s, if next.Some? then next.value else |s|)
    ensures PaintedBelow(t1, s, pat, color, if next.Some? then next.value else |s|)
    ensures Kept(t1, s, pat)
  {
    if next.Some? {
      NextOccurrence(s, t0, t1, pat, color, q, next.value);
    }
    StepPainted(s, t0, t1, pat, color, q, if next.Some? then next.value else |s|);
    StepKept(s, t0, t1, pat, color, q);
  }

  /** Writes the six characters of `color` at position q (memcpy). */
  method Paste(data: array<char>, q: nat, color: string)
    requires |color| == 6 && q + 6 <= data.Length
    modifies data
    ensures forall i :: 0 <= i < data.Length ==>
              data[i] == if q <= i < q + 6 then color[i - q] else old(data[i])
  {
    for k := 0 to 6
      invariant forall i :: 0 <= i < data.Length ==>
                  data[i] == if q <= i < q + k then color[i - q] else old(data[i])
    {
      data[q + k] := color[k];
    }
  }

  /** The source's loop for one placeholder: starting from the occurrence
   *  found before any replacement, overwrite it with the colour and search
   *  again from the same position, until none is found. */
  method ReplaceAll(data: array<char>, pat: string, color: string, start: Option<nat>)
    requires |pat| == 6 && Disjoint(pat, pat) && |color| == 6 && ForeignColor(color, pat)
    requires start == Find(data[..], pat, 0)
    modifies data
    ensures Replaced(data[..], old(data[..]), pat, color)
    ensures Absent(data[..], pat)
  {
    ghost var s := data[..];
    var p := start;
    ghost var b: nat := if p.Some? then p.value else data.Length;
    while p.Some?
      invariant b <= data.Length && b == (if p.Some? then p.value else data.Length)
      invariant p.Some? ==> OccursAt(s, pat, b)
      invariant Ahead(data[..], s, b) && PaintedBelow(data[..], s, pat, color, b) && Kept(data[..], s, pat)
      decreases data.Length - b + (if p.Some? then 1 else 0)
    {
      var q := p.value;
      ghost var t0 := data[..];
      Paste(data, q, color);
      p := Find(data[..], pat, q);
      ReplaceStep(s, t0, data[..], pat, color, q, p);
      b := if p.Some? then p.value else data.Length;
    }
    ReplacedLeavesNone(data[..], s, pat, color);
  }

  /** `t` and `s` have the same length and the same occurrences of `p`. */
  ghost predicate SameOccurrences(t: seq<char>, s: seq<char>, p: seq<char>)
  {
    |t| == |s| && forall j :: OccursAt(t, p, j) == OccursAt(s, p, j)
  }

  /** Replacing one placeholder leaves a window of another one as it was
   *  in the sense of being an occurrence or not. */
  lemma OtherAt(t: seq<char>, s: seq<char>, p: string, c: string, q: string, j: nat)
    requires IsPlaceholder(p) && IsPlaceholder(q) && p != q
    requires Replaced(t, s, p, c) && ForeignColor(c, q)
    requires j + 6 <= |s|
    ensures OccursAt(t, q, j) == OccursAt(s, q, j)
  {
    PlaceholdersDisjoint(q, q);
    if i :| j <= i < j + 6 && t[i] != s[i] {
      assert Covered(s, p, i);
      CoveredIsForeign(t, s, p, c, i, q);
      NotAt(t, q, j, i);
      CoveredExcludesOther(s, p, q, i, j);
    } else {
      SameWindow(s, t, q, j);
    }
  }

  /** A position covered by one placeholder lies in no occurrence of another. */
  lemma CoveredExcludesOther(s: seq<char>, p: string, q: string, i: int, j: int)
    requires IsPlaceholder(p) && IsPlaceholder(q) && p != q
    requires Covered(s, p, i) && j <= i < j + 6
    ensures !OccursAt(s, q, j)
  {
    PlaceholdersDisjoint(p, q);
    PlaceholdersDisjoint(q, p);
    var j0 :| i - 6 < j0 <= i && OccursAt(s, p, j0);
    SameStartSame(s, p, q, j0, j);
    if OccursAt(s, q, j) {
      if j0 < j {
        NoOverlap(s, p, q, j0, j);
      } else if j < j0 {
        NoOverlap(s, q, p, j, j0);
      } else {
        assert false;
      }
    }
  }

  /** Two patterns of one length occurring at the same place are equal. */
  lemma SameStartSame(s: seq<char>, p: string, q: string, i: int, j: int)
    ensures i == j && |p| == |q| && OccursAt(s, p, i) && OccursAt(s, q, j) ==> p == q
  {
    if i == j && |p| == |q| && OccursAt(s, p, i) && OccursAt(s, q, j) {
      PlaceholderWindow(s, p, i);
      PlaceholderWindow(s, q, j);
    }
  }


  /** An occurrence is the window it occupies. */
  lemma PlaceholderWindow(s: seq<char>, p: string, j: nat)
    requires OccursAt(s, p, j)
    ensures s[j..j + |p|] == p
  {
  }

  /** Replacing `p` keeps the occurrences of every other placeholder. */
  lemma OthersKept(t: seq<char>, s: seq<char>, p: string, c: string, q: string)
    requires IsPlaceholder(p) && IsPlaceholder(q) && p != q
    requires Replaced(t, s, p, c) && ForeignColor(c, q)
    ensures SameOccurrences(t, s, q)
  {
    forall j: int
      ensures OccursAt(t, q, j) == OccursAt(s, q, j)
    {
      if 0 <= j && j + 6 <= |s| {
        OtherAt(t, s, p, c, q, j);
      }
    }
  }

  /** The same occurrences give the same search results. */
  lemma {:induction false} FindSame(t: seq<char>, s: seq<char>, p: seq<char>, from: nat)
    requires SameOccurrences(t, s, p)
    ensures Find(t, p, from) == Find(s, p, from)
    decreases |s| - from
  {
    if from + |p| <= |s| && !OccursAt(s, p, from) {
      FindSame(t, s, p, from + 1);
    }
  }

  /** Positions covered by an occurrence are the same when the
   *  occurrences are. */
  lemma CoveredSame(t: seq<char>, s: seq<char>, p: seq<char>, i: int)
    requires SameOccurrences(t, s, p)
    ensures Covered(t, p, i) == Covered(s, p, i)
  {
    if Covered(s, p, i) {
      var j :| i - |p| < j <= i && OccursAt(s, p, j);
      assert OccursAt(t, p, j);
    }
    if Covered(t, p, i) {
      var j :| i - |p| < j <= i && OccursAt(t, p, j);
      assert OccursAt(s, p, j);
    }
  }

  /** A later replacement of another placeholder leaves the colour written
   *  for an earlier one in place. */
  lemma PaintedSurvives(t: seq<char>, u: seq<char>, s: seq<char>, p: seq<char>, cp: seq<char>,
                        q: seq<char>, cq: seq<char>)
    requires |p| == 6 && PaintedBelow(t, s, p, cp, |s|) && ForeignColor(cp, q)
    requires Replaced(u, t, q, cq)
    ensures PaintedBelow(u, s, p, cp, |s|)
  {
    forall j, k | OccursAt(s, p, j) && j < |s| && 0 <= k < 6
      ensures u[j + k] == cp[k]
    {
      var i := j + k;
      assert t[i] == cp[k];
      assert !Covered(t, q, i) by {
        if Covered(t, q, i) {
          var j0 :| i - |q| < j0 <= i && OccursAt(t, q, j0);
          NotAt(t, q, j0, i);
        }
      }
    }
  }

  /** Painting is stated over the occurrences, so texts with the same
   *  occurrences describe the same painting. */
  lemma PaintedTransfer(t: seq<char>, s1: seq<char>, s2: seq<char>, p: seq<char>, c: seq<char>)
    requires PaintedBelow(t, s1, p, c, |s1|) && SameOccurrences(s1, s2, p)
    ensures PaintedBelow(t, s2, p, c, |s2|)
  {
    forall j, k | OccursAt(s2, p, j) && j < |s2| && 0 <= k < |p|
      ensures t[j + k] == c[k]
    {
      assert OccursAt(s1, p, j);
    }
  }

  /** Positions in no placeholder at all. */
  ghost predicate KeptAll(t: seq<char>, s: seq<char>)
  {
    |t| == |s| &&
    forall i :: 0 <= i < |s| && !Covered(s, Dark, i) && !Covered(s, Light, i) &&
                !Covered(s, Interior, i) && !Covered(s, Indicator, i)
      ==> t[i] == s[i]
  }

  /** Each placeholder's occurrences in `s` hold its colour in `t`, no
   *  placeholder is left, and every other position is unchanged. */
  ghost predicate Colorized(t: seq<char>, s: seq<char>, dark: string, light: string,
                            interior: string, indicator: string)
  {
    PaintedBelow(t, s, Dark, dark, |s|) && PaintedBelow(t, s, Light, light, |s|) &&
    PaintedBelow(t, s, Interior, interior, |s|) && PaintedBelow(t, s, Indicator, indicator, |s|) &&
    Absent(t, Dark) && Absent(t, Light) && Absent(t, Interior) && Absent(t, Indicator) &&
    KeptAll(t, s)
  }

  /** The colours are foreign to every placeholder. */
  lemma ColorsForeign(c: string)
    requires IsColorString(c)
    ensures ForeignColor(c, Dark) && ForeignColor(c, Light)
    ensures ForeignColor(c, Interior) && ForeignColor(c, Indicator)
  {
    ColorIsForeign(c, Dark);
    ColorIsForeign(c, Light);
    ColorIsForeign(c, Interior);
    ColorIsForeign(c, Indicator);
  }

  /** The four replacement loops in turn, DARKKK, LIGHTT, INTROR and
   *  INDCTR, give the colourised text. */
  lemma FourReplacements(s: seq<char>, t1: seq<char>, t2: seq<char>, t3: seq<char>, t4: seq<char>,
                         dark: string, light: string, interior: string, indicator: string)
    requires IsColorString(dark) && IsColorString(light)
    requires IsColorString(interior) && IsColorString(indicator)
    requires Replaced(t1, s, Dark, dark) && Replaced(t2, t1, Light, light)
    requires Replaced(t3, t2, Interior, interior) && Replaced(t4, t3, Indicator, indicator)
    ensures Colorized(t4, s, dark, light, interior, indicator)
  {
    ColorsForeign(dark);
    ColorsForeign(light);
    ColorsForeign(interior);
    ColorsForeign(indicator);
    OthersKept(t1, s, Dark, dark, Light);
    OthersKept(t1, s, Dark, dark, Interior);
    OthersKept(t1, s, Dark, dark, Indicator);
    OthersKept(t2, t1, Light, light, Dark);
    OthersKept(t2, t1, Light, light, Interior);
    OthersKept(t2, t1, Light, light, Indicator);
    OthersKept(t3, t2, Interior, interior, Dark);
    OthersKept(t3, t2, Interior, interior, Light);
    OthersKept(t3, t2, Interior, interior, Indicator);
    OthersKept(t4, t3, Indicator, indicator, Dark);
    OthersKept(t4, t3, Indicator, indicator, Light);
    OthersKept(t4, t3, Indicator, indicator, Interior);
    // the colours written by each loop
    PaintedSurvives(t1, t2, s, Dark, dark, Light, light);
    PaintedSurvives(t2, t3, s, Dark, dark, Interior, interior);
    PaintedSurvives(t3, t4, s, Dark, dark, Indicator, indicator);
    PaintedTransfer(t2, t1, s, Light, light);
    PaintedSurvives(t2, t3, s, Light, light, Interior, interior);
    PaintedSurvives(t3, t4, s, Light, light, Indicator, indicator);
    PaintedTransfer(t3, t2, t1, Interior, interior);
    PaintedTransfer(t3, t1, s, Interior, interior);
    PaintedSurvives(t3, t4, s, Interior, interior, Indicator, indicator);
    PaintedTransfer(t4, t3, t2, Indicator, indicator);
    PaintedTransfer(t4, t2, t1, Indicator, indicator);
    PaintedTransfer(t4, t1, s, Indicator, indicator);
    // no placeholder is left
    ReplacedLeavesNone(t1, s, Dark, dark);
    ReplacedLeavesNone(t2, t1, Light, light);
    ReplacedLeavesNone(t3, t2, Interior, interior);
    ReplacedLeavesNone(t4, t3, Indicator, indicator);
    // everything else is unchanged
    forall i | 0 <= i < |s| && !Covered(s, Dark, i) && !Covered(s, Light, i) &&
               !Covered(s, Interior, i) && !Covered(s, Indicator, i)
      ensures t4[i] == s[i]
    {
      CoveredSame(t1, s, Light, i);
      CoveredSame(t1, s, Interior, i);
      CoveredSame(t2, t1, Interior, i);
      CoveredSame(t1, s, Indicator, i);
      CoveredSame(t2, t1, Indicator, i);
      CoveredSame(t3, t2, Indicator, i);
    }
  }

  /** The colour substitution of TkpDrawCheckIndicator on the copy of the
   *  SVG text: the first occurrence of each placeholder is found before any
   *  is replaced, then the four loops run in turn. */
  method Colorize(data: array<char>, dark: string, light: string, interior: string, indicator: string)
    requires IsColorString(dark) && IsColorString(light)
    requires IsColorString(interior) && IsColorString(indicator)
    modifies data
    ensures Colorized(data[..], old(data[..]), dark, light, interior, indicator)
  {
    ghost var s := data[..];
    var darkAt := Find(data[..], Dark, 0);
    var lightAt := Find(data[..], Light, 0);
    var interiorAt := Find(data[..], Interior, 0);
    var indicatorAt := Find(data[..], Indicator, 0);
    ColorsForeign(dark);
    ColorsForeign(light);
    ColorsForeign(interior);
    ColorsForeign(indicator);
    PlaceholdersDisjoint(Dark, Dark);
    PlaceholdersDisjoint(Light, Light);
    PlaceholdersDisjoint(Interior, Interior);
    PlaceholdersDisjoint(Indicator, Indicator);

    ReplaceAll(data, Dark, dark, darkAt);
    ghost var t1 := data[..];
    OthersKept(t1, s, Dark, dark, Light);
    OthersKept(t1, s, Dark, dark, Interior);
    OthersKept(t1, s, Dark, dark, Indicator);
    FindSame(t1, s, Light, 0);

    ReplaceAll(data, Light, light, lightAt);
    ghost var t2 := data[..];
    OthersKept(t2, t1, Light, light, Interior);
    OthersKept(t2, t1, Light, light, Indicator);
    FindSame(t2, t1, Interior, 0);
    FindSame(t1, s, Interior, 0);

    ReplaceAll(data, Interior, interior, interiorAt);
    ghost var t3 := data[..];
    OthersKept(t3, t2, Interior, interior, Indicator);
    FindSame(t3, t2, Indicator, 0);
    FindSame(t2, t1, Indicator, 0);
    FindSame(t1, s, Indicator, 0);

    ReplaceAll(data, Indicator, indicator, indicatorAt);
    FourReplacements(s, t1, t2, t3, data[..], dark, light, interior, indicator);
  }

  // ---------------------------------------------------------------------
  // The indicator image: template, colours and cache name.

  /** Indicator draw modes. */
  const CheckButtonMode: int := 0
  const CheckMenuMode: int := 1
  const RadioButtonMode: int := 2
  const RadioMenuMode: int := 3

  /** Indicator sizes in pixels before scaling. */
  const ButtonDim: nat := 16
  const MenuDim: nat := 8

  datatype Color = Color(red: Channel, green: Channel, blue: Channel)

  /** The SVG templates of the indicators. */
  datatype Template = CheckOff | CheckOn | RadioOff | RadioOn | MenuOff | CheckMenuOn | RadioMenuOn

  /** The template of a mode, whether it has a border and an interior,
   *  and its size. */
  datatype Style = Style(svg: Template, hasBorder: bool, hasInterior: bool, dim: nat)

  predicate IsOffTemplate(t: Template)
  {
    t == CheckOff || t == RadioOff || t == MenuOff
  }

  /** The switch on the mode; any mode other than the three others is
   *  drawn as a check button. */
  function StyleOf(mode: int, on: int): (r: Style)
    ensures r.dim == if mode == CheckMenuMode || mode == RadioMenuMode then MenuDim else ButtonDim
    ensures r.hasBorder == r.hasInterior == (r.dim == ButtonDim)
    ensures IsOffTemplate(r.svg) <==> on == 0
  {
    if mode == CheckMenuMode then Style(if on == 0 then MenuOff else CheckMenuOn, false, false, MenuDim)
    else if mode == RadioButtonMode then Style(if on == 0 then RadioOff else RadioOn, true, true, ButtonDim)
    else if mode == RadioMenuMode then Style(if on == 0 then MenuOff else RadioMenuOn, false, false, MenuDim)
    else Style(if on == 0 then CheckOff else CheckOn, true, true, ButtonDim)
  }

  /** An unknown mode is styled as a check button. */
  lemma UnknownModeIsCheck(mode: int, on: int)
    requires mode !in {CheckButtonMode, CheckMenuMode, RadioButtonMode, RadioMenuMode}
    ensures StyleOf(mode, on) == StyleOf(CheckButtonMode, on)
  {
  }

  /** The colour strings written over the four placeholders. */
  datatype Palette = Palette(border: string, light: string, interior: string, indicator: string)

  /** The colours of an indicator.  Missing shadow colours give black and
   *  white; missing select and disable colours are the background; a
   *  tri-state or disabled indicator uses the background and the disable
   *  colour, any other the select and indicator colours. */
  function PaletteOf(bg: Color, dark: Option<Color>, light: Option<Color>, indicator: Color,
                     select: Option<Color>, disable: Option<Color>, on: int, disabled: bool): (r: Palette)
    ensures IsColorString(r.border) && IsColorString(r.light)
    ensures IsColorString(r.interior) && IsColorString(r.indicator)
    ensures dark.None? ==> r.border == Black
    ensures dark.Some? ==> r.border == Str(dark.value)
    ensures light.None? ==> r.light == White
    ensures light.Some? ==> r.light == Str(light.value)
    ensures (on == 2 || disabled) ==> r.interior == Str(bg)
    ensures (on == 2 || disabled) && disable.None? ==> r.indicator == Str(bg)
    ensures (on == 2 || disabled) && disable.Some? ==> r.indicator == Str(disable.value)
    ensures !(on == 2 || disabled) ==> r.indicator == Str(indicator)
    ensures !(on == 2 || disabled) && select.None? ==> r.interior == Str(bg)
    ensures !(on == 2 || disabled) && select.Some? ==> r.interior == Str(select.value)
  {
    var disable' := if disable.None? then bg else disable.value;
    var select' := if select.None? then bg else select.value;
    var bgStr := Str(bg);
    BlackWhiteAreColors();
    Palette(if dark.None? then Black else Str(dark.value),
            if light.None? then White else Str(light.value),
            if on == 2 || disabled then bgStr else Str(select'),
            if on == 2 || disabled then Str(disable') else Str(indicator))
  }

  /** The colour strings used when a shadow colour is missing. */
  const Black: string := "000000"
  const White: string := "ffffff"

  lemma BlackWhiteAreColors()
    ensures IsColorString(Black) && IsColorString(White)
  {
    forall k | 0 <= k < 6
      ensures HexValue(Black[k]).Some? && HexValue(White[k]).Some?
    {
      assert Black[k] == '0' && White[k] == 'f';
    }
  }

  function Str(c: Color): (r: string)
    ensures IsColorString(r)
  {
    ColorToStr(c.red, c.green, c.blue)
  }

  /** The decimal digits of a natural number, as %d prints them. */
  function Digits(n: nat): (r: string)
    ensures 1 <= |r| && (n < 10 ==> |r| == 1)
    ensures forall k :: 0 <= k < |r| ==> '0' <= r[k] <= '9'
    decreases n
  {
    if n < 10 then [('0' as int + n) as char] else Digits(n / 10) + [('0' as int + n % 10) as char]
  }

  /** %d: a minus sign for negative numbers, then the digits. */
  function Decimal(n: int): string
  {
    if n < 0 then "-" + Digits(-n) else Digits(n)
  }

  const NamePrefix: string := "::tk::icons::indicator"
  const Unused: string := "XXXXXX"

  /** The size of the buffer the cache name is printed into. */
  const NameBufferSize: nat := 50

  /** snprintf into a buffer of `size` bytes keeps at most size - 1
   *  characters. */
  function Snprintf(s: string, size: nat): (r: string)
    requires size > 0
    ensures |r| < size && |r| <= |s| && r == s[..|r|]
    ensures |s| < size ==> r == s
  {
    if |s| < size then s else s[..size - 1]
  }

  /** The name under which the indicator image is cached: the mode, then
   *  the border, interior and indicator colours, each replaced by XXXXXX
   *  when the mode has no border or interior or the indicator is off. */
  function IndicatorName(mode: int, on: int, p: Palette): string
  {
    var style := StyleOf(mode, on);
    Snprintf(NamePrefix + Decimal(mode) +
             "_" + (if style.hasBorder then p.border else Unused) +
             "_" + (if style.hasInterior then p.interior else Unused) +
             "_" + (if on != 0 then p.indicator else Unused), NameBufferSize)
  }

  predicate ValidPalette(p: Palette)
  {
    IsColorString(p.border) && IsColorString(p.light) &&
    IsColorString(p.interior) && IsColorString(p.indicator)
  }

  /** Where the three colour fields sit after a 24-character head. */
  lemma NameLayout(head: string, b: string, i: string, n: string)
    requires |head| == 24 && |b| == 6 && |i| == 6 && |n| == 6
    ensures var full := head + b + "_" + i + "_" + n;
            |full| == 44 && full[..24] == head &&
            full[24..30] == b && full[31..37] == i && full[38..44] == n
  {
    var a2 := head + b + "_";
    var a3 := a2 + i + "_";
    assert a2[24..30] == b && a2[..24] == head;
    assert a3[31..37] == i && a3[..31] == a2;
    assert (a3 + n)[24..30] == a3[24..30] == a2[24..30];
  }

  /** For the single-digit modes the name is never truncated and each
   *  field sits at a fixed position. */
  lemma NameFields(mode: int, on: int, p: Palette)
    requires 0 <= mode < 10 && ValidPalette(p)
    ensures var r := IndicatorName(mode, on, p);
            var style := StyleOf(mode, on);
            |r| == 44 && r[..22] == NamePrefix && r[22] == ('0' as int + mode) as char &&
            r[24..30] == (if style.hasBorder then p.border else Unused) &&
            r[31..37] == (if style.hasInterior then p.interior else Unused) &&
            r[38..44] == (if on != 0 then p.indicator else Unused)
  {
    var style := StyleOf(mode, on);
    var b := if style.hasBorder then p.border else Unused;
    var i := if style.hasInterior then p.interior else Unused;
    var n := if on != 0 then p.indicator else Unused;
    var head := NamePrefix + Decimal(mode) + "_";
    assert |head| == 24 && head[..22] == NamePrefix && head[22] == ('0' as int + mode) as char;
    NameLayout(head, b, i, n);
  }

  /** The placeholder for an unused field is no colour. */
  lemma UnusedIsNoColor()
    ensures !IsColorString(Unused)
  {
    assert HexValue(Unused[0]).None?;
  }

  /** Equal cache names for single-digit modes mean the same mode, the
   *  same template and the same colours for every field the template
   *  uses. */
  lemma NameDeterminesImage(m1: int, on1: int, p1: Palette, m2: int, on2: int, p2: Palette)
    requires 0 <= m1 < 10 && 0 <= m2 < 10 && ValidPalette(p1) && ValidPalette(p2)
    requires IndicatorName(m1, on1, p1) == IndicatorName(m2, on2, p2)
    ensures m1 == m2 && StyleOf(m1, on1) == StyleOf(m2, on2)
    ensures StyleOf(m1, on1).hasBorder ==> p1.border == p2.border
    ensures StyleOf(m1, on1).hasInterior ==> p1.interior == p2.interior
    ensures on1 != 0 ==> p1.indicator == p2.indicator
  {
    NameFields(m1, on1, p1);
    NameFields(m2, on2, p2);
    var r := IndicatorName(m1, on1, p1);
    assert ('0' as int + m1) as char == r[22] == ('0' as int + m2) as char;
    UnusedIsNoColor();
    assert (on1 != 0) == (on2 != 0) by {
      assert r[38..44] == (if on1 != 0 then p1.indicator else Unused);
      assert r[38..44] == (if on2 != 0 then p2.indicator else Unused);
    }
  }

  /** The cache name leaves out the light shadow colour although the
   *  check and radio button templates paint it over LIGHTT: two palettes
   *  that differ only in that colour share a name, while the images
   *  colourised from a template holding LIGHTT differ. */
  lemma NameIgnoresLight(mode: int, on: int, p: Palette, light: string, template: seq<char>, j: int,
                         t1: seq<char>, t2: seq<char>)
    requires p.light != light && OccursAt(template, Light, j)
    requires Colorized(t1, template, p.border, p.light, p.interior, p.indicator)
    requires Colorized(t2, template, p.border, light, p.interior, p.indicator)
    ensures IndicatorName(mode, on, p) == IndicatorName(mode, on, p.(light := light))
    ensures t1 != t2
  {
    assert |p.light| == |light| == 6;
    var k :| 0 <= k < 6 && p.light[k] != light[k];
    assert t1[j + k] == p.light[k] && t2[j + k] == light[k];
  }

  /** The size of a buffer that holds a name with five fields. */
  const FullNameBufferSize: nat := 64

  /** The cache name with the light shadow colour as a field of its own,
   *  after the border colour; templates without a border have no LIGHTT
   *  and the field is XXXXXX for them. */
  function FullIndicatorName(mode: int, on: int, p: Palette): string
  {
    var style := StyleOf(mode, on);
    Snprintf(NamePrefix + Decimal(mode) +
             "_" + (if style.hasBorder then p.border else Unused) +
             "_" + (if style.hasBorder then p.light else Unused) +
             "_" + (if style.hasInterior then p.interior else Unused) +
             "_" + (if on != 0 then p.indicator else Unused), FullNameBufferSize)
  }

  /** Where the four colour fields sit after a 24-character head. */
  lemma FullNameLayout(head: string, b: string, l: string, i: string, n: string)
    requires |head| == 24 && |b| == 6 && |l| == 6 && |i| == 6 && |n| == 6
    ensures var full := head + b + "_" + l + "_" + i + "_" + n;
            |full| == 51 && full[..24] == head && full[24..30] == b &&
            full[31..37] == l && full[38..44] == i && full[45..51] == n
  {
    var a2 := head + b + "_";
    var a3 := a2 + l + "_";
    var a4 := a3 + i + "_";
    var full := a4 + n;
    assert a2[24..30] == b && a2[..24] == head;
    assert a3[31..37] == l;
    assert a4[38..44] == i;
    assert full[45..51] == n;
    PrefixSlice(a2, a3 + i + "_", 0, 24);
    PrefixSlice(a2, a3 + i + "_", 24, 30);
    PrefixSlice(a3, a4, 31, 37);
    PrefixSlice(a4, full, 0, 24);
    PrefixSlice(a4, full, 24, 30);
    PrefixSlice(a4, full, 31, 37);
    PrefixSlice(a4, full, 38, 44);
  }

  /** A slice within a prefix is the prefix's slice. */
  lemma PrefixSlice(s: seq<char>, t: seq<char>, i: nat, j: nat)
    requires i <= j <= |s| <= |t| && t[..|s|] == s
    ensures t[i..j] == s[i..j]
  {
    assert forall k :: i <= k < j ==> t[k] == t[..|s|][k];
  }

  /** For the single-digit modes the full name fits its buffer and each
   *  field sits at a fixed position. */
  lemma FullNameFields(mode: int, on: int, p: Palette)
    requires 0 <= mode < 10 && ValidPalette(p)
    ensures var r := FullIndicatorName(mode, on, p);
            var style := StyleOf(mode, on);
            |r| == 51 && r[..22] == NamePrefix && r[22] == ('0' as int + mode) as char &&
            r[24..30] == (if style.hasBorder then p.border else Unused) &&
            r[31..37] == (if style.hasBorder then p.light else Unused) &&
            r[38..44] == (if style.hasInterior then p.interior else Unused) &&
            r[45..51] == (if on != 0 then p.indicator else Unused)
  {
    var style := StyleOf(mode, on);
    var b := if style.hasBorder then p.border else Unused;
    var l := if style.hasBorder then p.light else Unused;
    var i := if style.hasInterior then p.interior else Unused;
    var n := if on != 0 then p.indicator else Unused;
    var head := NamePrefix + Decimal(mode) + "_";
    assert |head| == 24 && head[..22] == NamePrefix && head[22] == ('0' as int + mode) as char;
    FullNameLayout(head, b, l, i, n);
  }

  /** Equal full names for single-digit modes mean the same mode, the
   *  same template and the same colours for every field the template
   *  uses, the light shadow colour included. */
  lemma FullNameDeterminesImage(m1: int, on1: int, p1: Palette, m2: int, on2: int, p2: Palette)
    requires 0 <= m1 < 10 && 0 <= m2 < 10 && ValidPalette(p1) && ValidPalette(p2)
    requires FullIndicatorName(m1, on1, p1) == FullIndicatorName(m2, on2, p2)
    ensures m1 == m2 && StyleOf(m1, on1) == StyleOf(m2, on2)
    ensures StyleOf(m1, on1).hasBorder ==> p1.border == p2.border && p1.light == p2.light
    ensures StyleOf(m1, on1).hasInterior ==> p1.interior == p2.interior
    ensures on1 != 0 ==> p1.indicator == p2.indicator
  {
    FullNameFields(m1, on1, p1);
    FullNameFields(m2, on2, p2);
    var r := FullIndicatorName(m1, on1, p1);
    assert ('0' as int + m1) as char == r[22] == ('0' as int + m2) as char;
    UnusedIsNoColor();
    assert (on1 != 0) == (on2 != 0) by {
      assert r[45..51] == (if on1 != 0 then p1.indicator else Unused);
      assert r[45..51] == (if on2 != 0 then p2.indicator else Unused);
    }
  }

  /** TkpDrawCheckIndicator without the drawing: nothing happens without
   *  an indicator colour; otherwise the cache name is formed (with the
   *  light shadow colour, as FullIndicatorName) and, when no image of
   *  that name exists yet, a copy of the mode's SVG template is
   *  colourised to create one.  `template` is the template's text and
   *  `cached` says whether the image already exists. */
  method DrawCheckIndicator(template: seq<char>, cached: bool, bg: Color, dark: Option<Color>,
                            light: Option<Color>, indicator: Option<Color>, select: Option<Color>,
                            disable: Option<Color>, on: int, disabled: bool, mode: int)
    returns (name: Option<string>, svg: Option<seq<char>>)
    ensures indicator.None? ==> name.None? && svg.None?
    ensures indicator.Some? ==> name.Some? && (svg.Some? <==> !cached)
    ensures indicator.Some? ==>
              var p := PaletteOf(bg, dark, light, indicator.value, select, disable, on, disabled);
              name.value == FullIndicatorName(mode, on, p) &&
              (svg.Some? ==> Colorized(svg.value, template, p.border, p.light, p.interior, p.indicator))
  {
    if indicator.None? {
      return None, None;
    }
    var p := PaletteOf(bg, dark, light, indicator.value, select, disable, on, disabled);
    name := Some(FullIndicatorName(mode, on, p));
    svg := None;
    if !cached {
      var copy := new char[|template|](i requires 0 <= i < |template| => template[i]);
      assert copy[..] == template;
      Colorize(copy, p.border, p.light, p.interior, p.indicator);
      svg := Some(copy[..]);
    }
  }

  // ---------------------------------------------------------------------
  // Display: relief, content offset and image clipping.

  datatype Relief = Flat | Groove | Raised | Ridge | Solid | Sunken

  /** The button types; check and radio buttons are the toggles. */
  datatype ButtonType = LabelType | PushButton | CheckButton | RadioButton

  predicate IsToggle(t: ButtonType)
  {
    t == CheckButton || t == RadioButton
  }

  /** The relief a button is drawn with.  A toggle without indicator shows
   *  sunken when selected, its relief while the pointer is over it (the
   *  bindings then copy the over-relief into the relief), and its
   *  off-relief otherwise. */
  function DisplayRelief(kind: ButtonType, indicatorOn: bool, selected: bool,
                         relief: Relief, overRelief: Relief, offRelief: Relief): (r: Relief)
    ensures !IsToggle(kind) || indicatorOn ==> r == relief
    ensures IsToggle(kind) && !indicatorOn && selected ==> r == Sunken
    ensures IsToggle(kind) && !indicatorOn && !selected ==> r == relief || r == offRelief
    ensures IsToggle(kind) && !indicatorOn && !selected && relief != overRelief ==> r == offRelief
    ensures IsToggle(kind) && !indicatorOn && !selected && relief == overRelief ==> r == relief
  {
    if IsToggle(kind) && !indicatorOn then
      if selected then Sunken
      else if overRelief != relief then offRelief
      else relief
    else relief
  }

  /** With -indicatoron 0 -overrelief raised -offrelief flat a toggle is
   *  flat when off, raised under the pointer and sunken when on. */
  lemma ToggleReliefTable(kind: ButtonType, selected: bool, pointerOver: bool, configured: Relief)
    requires IsToggle(kind) && configured != Raised
    ensures var relief := if pointerOver then Raised else configured;
            DisplayRelief(kind, false, selected, relief, Raised, Flat) ==
              if selected then Sunken else if pointerOver then Raised else Flat
  {
  }

  /** The press offset along one axis of a shifting button. */
  function AxisShift(relief: Relief, leftover: int): (r: int)
    ensures 0 <= r <= 2
    ensures relief == Ridge ==> r == 1
    ensures relief == Sunken ==> 1 <= r
    ensures relief != Sunken ==> r <= 1
    ensures relief != Ridge && leftover % 2 != 0 ==> r == if relief == Sunken then 2 else 1
  {
    var base := if relief == Sunken then 2 else 1;
    if relief != Ridge && leftover % 2 == 0 then base - 1 else base
  }

  /** Only an unraised push button outside strict Motif mode is shifted. */
  predicate Shifts(relief: Relief, kind: ButtonType, strictMotif: bool)
  {
    relief != Raised && kind == PushButton && !strictMotif
  }

  /** For a flat, groove or solid relief the shift moves content centred
   *  in an even or odd leftover to the upper half pixel; a sunken relief
   *  moves it one pixel further. */
  lemma ShiftRoundsUp(relief: Relief, leftover: nat)
    requires relief != Ridge
    ensures leftover / 2 + AxisShift(relief, leftover) ==
            (leftover + 1) / 2 + (if relief == Sunken then 1 else 0)
  {
  }

  /** One axis of the boundary clipping before an image is drawn. */
  datatype Span = Span(offset: int, size: int)

  function Clip(offset: int, size: int, limit: int): (r: Span)
    ensures r.size == if size > limit then limit else size
    ensures limit >= 0 && size >= 0 ==> 0 <= r.offset && 0 <= r.size && r.offset + r.size <= limit
  {
    var o := if offset < 0 then 0 else offset;
    var s := if size > limit then limit else size;
    if s + o > limit then Span(limit - s, s) else Span(o, s)
  }

  /** An image that already fits is left where it is. */
  lemma ClipKeepsFitting(offset: int, size: int, limit: int)
    requires 0 <= offset && 0 <= size && offset + size <= limit
    ensures Clip(offset, size, limit) == Span(offset, size)
  {
  }

  /** Clipping twice is clipping once. */
  lemma ClipIdempotent(offset: int, size: int, limit: int)
    requires limit >= 0 && size >= 0
    ensures var r := Clip(offset, size, limit);
            Clip(r.offset, r.size, limit) == r
  {
    var r := Clip(offset, size, limit);
    ClipKeepsFitting(r.offset, r.size, limit);
  }

  // ---------------------------------------------------------------------
  // Geometry.

  datatype DefaultState = Active | Disabled | Normal
  datatype Compound = NoCompound | Bottom | Center | Left | Right | Top

  datatype Size = Size(w: nat, h: nat)

  /** What the button shows besides text: an image, a bitmap or neither. */
  datatype Content = NoContent | ImageContent(size: Size) | BitmapContent(size: Size)

  /** The options the geometry and the display depend on. */
  datatype ButtonConfig = ButtonConfig(
    kind: ButtonType, relief: Relief, overRelief: Relief, offRelief: Relief,
    indicatorOn: bool, defaultState: DefaultState, compound: Compound,
    highlightWidth: nat, borderWidth: nat, padX: nat, padY: nat,
    width: int, height: int)

  function Max(a: int, b: int): int
  {
    if a > b then a else b
  }

  /** The image and text sizes combined as -compound says. */
  function CompoundSize(compound: Compound, image: Size, text: Size, padX: nat, padY: nat): (r: (int, int))
    requires compound != NoCompound
    ensures r.0 >= image.w && r.0 >= text.w && r.1 >= image.h && r.1 >= text.h
    ensures compound == Top || compound == Bottom ==> r.1 == image.h + text.h + padY && r.0 == Max(image.w, text.w)
    ensures compound == Left || compound == Right ==> r.0 == image.w + text.w + padX && r.1 == Max(image.h, text.h)
    ensures compound == Center ==> r == (Max(image.w, text.w), Max(image.h, text.h))
  {
    match compound
    case Top => (Max(image.w, text.w), image.h + text.h + padY)
    case Bottom => (Max(image.w, text.w), image.h + text.h + padY)
    case Left => (image.w + text.w + padX, Max(image.h, text.h))
    case Right => (image.w + text.w + padX, Max(image.h, text.h))
    case Center => (Max(image.w, text.w), Max(image.h, text.h))
  }

  /** The indicator diameter of an image button: 65 percent of its height
   *  for a check button and 75 percent for a radio button, rounded down. */
  function Diameter(kind: ButtonType, height: int): (d: int)
  {
    if kind == CheckButton then CDiv(65 * height, 100) else CDiv(75 * height, 100)
  }

  lemma DiameterPercent(kind: ButtonType, height: nat)
    ensures var pct := if kind == CheckButton then 65 else 75;
            0 <= Diameter(kind, height) <= height &&
            100 * Diameter(kind, height) <= pct * height < 100 * (Diameter(kind, height) + 1)
  {
  }

  /** The content size (before the push-button margin), the indicator
   *  space and, when there is an indicator, its diameter. */
  datatype Layout = Layout(width: int, height: int, indicatorSpace: int, diameter: Option<int>)

  /** What TkpComputeButtonGeometry derives from the options, the content,
   *  the measured text, the font metrics and the Motif mode. */
  datatype Geometry = Geometry(inset: int, indicatorSpace: int, diameter: Option<int>,
                               width: int, height: int)

  /** An image or bitmap shown with text: the combined size, overridden
   *  by -width and -height, then padded. */
  function CompoundLayout(c: ButtonConfig, image: Size, text: Size): Layout
    requires c.compound != NoCompound
  {
    var both := CompoundSize(c.compound, image, text, c.padX, c.padY);
    var w := if c.width > 0 then c.width else both.0;
    var h := if c.height > 0 then c.height else both.1;
    var indicator := IsToggle(c.kind) && c.indicatorOn;
    Layout(w + 2 * c.padX, h + 2 * c.padY, if indicator then h else 0,
           if indicator then Some(Diameter(c.kind, h)) else None)
  }

  /** An image or bitmap alone: its size overridden by -width and
   *  -height, without padding. */
  function ImageLayout(c: ButtonConfig, image: Size): Layout
  {
    var w := if c.width > 0 then c.width else image.w;
    var h := if c.height > 0 then c.height else image.h;
    var indicator := IsToggle(c.kind) && c.indicatorOn;
    Layout(w, h, if indicator then h else 0, if indicator then Some(Diameter(c.kind, h)) else None)
  }

  /** Text alone: -width counts digits and -height lines, then padded. */
  function TextLayout(c: ButtonConfig, text: Size, avgWidth: nat, linespace: nat): Layout
  {
    var w := if c.width > 0 then c.width * avgWidth else text.w;
    var h := if c.height > 0 then c.height * linespace else text.h;
    var indicator := IsToggle(c.kind) && c.indicatorOn;
    Layout(w + 2 * c.padX, h + 2 * c.padY, if indicator then linespace + avgWidth else 0,
           if indicator then Some(linespace) else None)
  }

  /** The compound layout applies only with both an image and non-empty
   *  text. */
  function LayoutOf(c: ButtonConfig, content: Content, text: Size, avgWidth: nat, linespace: nat): Layout
  {
    if content.NoContent? then TextLayout(c, text, avgWidth, linespace)
    else if c.compound != NoCompound && text.w != 0 && text.h != 0 then CompoundLayout(c, content.size, text)
    else ImageLayout(c, content.size)
  }

  function GeometryOf(c: ButtonConfig, content: Content, text: Size, avgWidth: nat, linespace: nat,
                      strictMotif: bool): Geometry
  {
    var inset := c.highlightWidth + c.borderWidth + (if c.defaultState != Disabled then 5 else 0);
    var extra := if c.kind == PushButton && !strictMotif then 2 else 0;
    var l := LayoutOf(c, content, text, avgWidth, linespace);
    Geometry(inset, l.indicatorSpace, l.diameter, l.width + extra, l.height + extra)
  }

  /** The inset leaves room for the highlight ring, the border and, unless
   *  the default state is disabled, the default ring; the indicator exists
   *  exactly for toggles with -indicatoron, is as high as an image button's
   *  content and, for a text button, one line high with the width of a
   *  digit beside it. */
  lemma GeometryFacts(c: ButtonConfig, content: Content, text: Size, avgWidth: nat, linespace: nat,
                      strictMotif: bool)
    ensures var g := GeometryOf(c, content, text, avgWidth, linespace, strictMotif);
            g.inset == c.highlightWidth + c.borderWidth + (if c.defaultState != Disabled then 5 else 0) &&
            g.indicatorSpace >= 0 && (g.diameter.Some? <==> IsToggle(c.kind) && c.indicatorOn) &&
            (!(IsToggle(c.kind) && c.indicatorOn) ==> g.indicatorSpace == 0) &&
            (content.NoContent? && IsToggle(c.kind) && c.indicatorOn ==>
               g.diameter == Some(linespace) && g.indicatorSpace == linespace + avgWidth) &&
            (!content.NoContent? && IsToggle(c.kind) && c.indicatorOn ==>
               g.diameter == Some(Diameter(c.kind, g.indicatorSpace)) && g.indicatorSpace <= g.height)
  {
  }

  /** The padding of the request, measured against the same button
   *  without padding: text alone and image with text are padded by
   *  2 * padX across and 2 * padY down, a compound also puts padX (side
   *  by side) or padY (stacked) between image and text unless -width or
   *  -height overrides that size, and an image or bitmap alone is not
   *  padded at all. */
  lemma PaddingAdds(c: ButtonConfig, content: Content, text: Size, avgWidth: nat, linespace: nat,
                    strictMotif: bool)
    ensures var g := GeometryOf(c, content, text, avgWidth, linespace, strictMotif);
            var g0 := GeometryOf(c.(padX := 0, padY := 0), content, text, avgWidth, linespace, strictMotif);
            && (content.NoContent? ==>
                  g.width == g0.width + 2 * c.padX && g.height == g0.height + 2 * c.padY)
            && (!content.NoContent? && c.compound != NoCompound && text.w != 0 && text.h != 0 ==>
                  && g.width == g0.width + 2 * c.padX +
                       (if c.width <= 0 && (c.compound == Left || c.compound == Right) then c.padX else 0)
                  && g.height == g0.height + 2 * c.padY +
                       (if c.height <= 0 && (c.compound == Top || c.compound == Bottom) then c.padY else 0))
            && (!content.NoContent? && !(c.compound != NoCompound && text.w != 0 && text.h != 0) ==>
                  g == g0)
  {
    var c0 := c.(padX := 0, padY := 0);
    var l := LayoutOf(c, content, text, avgWidth, linespace);
    var l0 := LayoutOf(c0, content, text, avgWidth, linespace);
    if content.NoContent? {
      TextPadded(c, text, avgWidth, linespace);
    } else if c.compound != NoCompound && text.w != 0 && text.h != 0 {
      CompoundPadded(c, content.size, text);
    } else {
      assert l == ImageLayout(c, content.size) && l0 == ImageLayout(c0, content.size);
    }
    assert GeometryOf(c, content, text, avgWidth, linespace, strictMotif).width - l.width ==
           GeometryOf(c0, content, text, avgWidth, linespace, strictMotif).width - l0.width;
  }

  /** Text alone is padded by the padding on both sides. */
  lemma TextPadded(c: ButtonConfig, text: Size, avgWidth: nat, linespace: nat)
    ensures var l, l0 := TextLayout(c, text, avgWidth, linespace),
                         TextLayout(c.(padX := 0, padY := 0), text, avgWidth, linespace);
            l.width == l0.width + 2 * c.padX && l.height == l0.height + 2 * c.padY
  {
  }

  /** A compound is padded on both sides, and between its parts unless
   *  that size is overridden. */
  lemma CompoundPadded(c: ButtonConfig, image: Size, text: Size)
    requires c.compound != NoCompound
    ensures var l, l0 := CompoundLayout(c, image, text), CompoundLayout(c.(padX := 0, padY := 0), image, text);
            && l.width == l0.width + 2 * c.padX +
                 (if c.width <= 0 && (c.compound == Left || c.compound == Right) then c.padX else 0)
            && l.height == l0.height + 2 * c.padY +
                 (if c.height <= 0 && (c.compound == Top || c.compound == Bottom) then c.padY else 0)
  {
    var both := CompoundSize(c.compound, image, text, c.padX, c.padY);
    var both0 := CompoundSize(c.compound, image, text, 0, 0);
    assert both.0 == both0.0 + (if c.compound == Left || c.compound == Right then c.padX else 0);
    assert both.1 == both0.1 + (if c.compound == Top || c.compound == Bottom then c.padY else 0);
  }

  /** The compound branch of TkpComputeButtonGeometry. */
  method LayCompound(c: ButtonConfig, image: Size, text: Size) returns (l: Layout)
    requires c.compound != NoCompound
    ensures l == CompoundLayout(c, image, text)
  {
    var both := CompoundSize(c.compound, image, text, c.padX, c.padY);
    var width, height := both.0, both.1;
    if c.width > 0 {
      width := c.width;
    }
    if c.height > 0 {
      height := c.height;
    }
    l := Layout(width, height, 0, None);
    if IsToggle(c.kind) && c.indicatorOn {
      l := l.(indicatorSpace := height, diameter := Some(Diameter(c.kind, height)));
    }
    l := l.(width := width + 2 * c.padX, height := height + 2 * c.padY);
  }

  /** The image-only branch. */
  method LayImage(c: ButtonConfig, imageWidth: nat, imageHeight: nat) returns (l: Layout)
    ensures l == ImageLayout(c, Size(imageWidth, imageHeight))
  {
    var width, height := imageWidth, imageHeight;
    if c.width > 0 {
      width := c.width;
    }
    if c.height > 0 {
      height := c.height;
    }
    l := Layout(width, height, 0, None);
    if IsToggle(c.kind) && c.indicatorOn {
      l := l.(indicatorSpace := height, diameter := Some(Diameter(c.kind, height)));
    }
  }

  /** The text-only branch, padding included. */
  method LayText(c: ButtonConfig, txtWidth: nat, txtHeight: nat, avgWidth: nat, linespace: nat)
    returns (l: Layout)
    ensures l == TextLayout(c, Size(txtWidth, txtHeight), avgWidth, linespace)
  {
    var width, height := txtWidth, txtHeight;
    if c.width > 0 {
      width := c.width * avgWidth;
    }
    if c.height > 0 {
      height := c.height * linespace;
    }
    l := Layout(width + 2 * c.padX, height + 2 * c.padY, 0, None);
    if IsToggle(c.kind) && c.indicatorOn {
      l := l.(diameter := Some(linespace), indicatorSpace := linespace + avgWidth);
    }
  }

  /** The button as TkpComputeButtonGeometry updates it. */
  class Button {
    const config: ButtonConfig
    var inset: int
    var indicatorSpace: int
    var indicatorDiameter: int
    var textWidth: nat
    var textHeight: nat
    var requestWidth: int
    var requestHeight: int
    var internalBorder: int

    constructor (config: ButtonConfig)
      ensures this.config == config
      ensures inset == 0 && indicatorSpace == 0 && indicatorDiameter == 0
      ensures textWidth == 0 && textHeight == 0
      ensures requestWidth == 0 && requestHeight == 0 && internalBorder == 0
    {
      this.config := config;
      inset, indicatorSpace, indicatorDiameter := 0, 0, 0;
      textWidth, textHeight := 0, 0;
      requestWidth, requestHeight, internalBorder := 0, 0, 0;
    }

    /** Recomputes the inset and the indicator, lays out the text when it
     *  is shown, and requests the size of the content plus the indicator
     *  space and twice the inset. */
    method ComputeGeometry(content: Content, text: Size, avgWidth: nat, linespace: nat, strictMotif: bool)
      modifies this`inset, this`indicatorSpace, this`indicatorDiameter, this`textWidth, this`textHeight
      modifies this`requestWidth, this`requestHeight, this`internalBorder
      ensures var g := GeometryOf(config, content, text, avgWidth, linespace, strictMotif);
              inset == g.inset && indicatorSpace == g.indicatorSpace &&
              indicatorDiameter == (if g.diameter.Some? then g.diameter.value else old(indicatorDiameter)) &&
              requestWidth == g.width + g.indicatorSpace + 2 * g.inset &&
              requestHeight == g.height + 2 * g.inset &&
              internalBorder == g.inset
      ensures content.NoContent? || config.compound != NoCompound ==> textWidth == text.w && textHeight == text.h
      ensures !(content.NoContent? || config.compound != NoCompound) ==>
                textWidth == old(textWidth) && textHeight == old(textHeight)
    {
      var c := config;
      var ins := c.highlightWidth + c.borderWidth;
      if c.defaultState != Disabled {
        ins := ins + 5;
      }
      var width, height, txtWidth, txtHeight, avg := 0, 0, 0, 0, 0;
      var haveImage := false;
      var haveText := false;
      if !content.NoContent? {
        width, height := content.size.w, content.size.h;
        haveImage := true;
      }
      if !haveImage || c.compound != NoCompound {
        textWidth, textHeight := text.w, text.h;
        txtWidth, txtHeight := text.w, text.h;
        avg := avgWidth;
        haveText := txtWidth != 0 && txtHeight != 0;
      }
      var l: Layout;
      if c.compound != NoCompound && haveImage && haveText {
        l := LayCompound(c, content.size, text);
      } else if haveImage {
        l := LayImage(c, width, height);
      } else {
        l := LayText(c, txtWidth, txtHeight, avg, linespace);
      }
      var space, diameter := l.indicatorSpace, l.diameter;
      width, height := l.width, l.height;
      if c.kind == PushButton && !strictMotif {
        width := width + 2;
        height := height + 2;
      }
      assert GeometryOf(c, content, text, avgWidth, linespace, strictMotif) ==
             Geometry(ins, space, diameter, width, height);
      inset, indicatorSpace := ins, space;
      if diameter.Some? {
        indicatorDiameter := diameter.value;
      }
      requestWidth := width + space + 2 * ins;
      requestHeight := height + 2 * ins;
      internalBorder := ins;
    }

    /** Moves the content of an unraised push button by the press offset:
     *  two pixels for sunken, one otherwise, taking one back on an axis
     *  whose leftover space is even unless the relief is ridge. */
    method ShiftByOffset(relief: Relief, x: int, y: int, width: int, height: int,
                         winWidth: int, winHeight: int, strictMotif: bool)
      returns (x': int, y': int)
      ensures !Shifts(relief, config.kind, strictMotif) ==> x' == x && y' == y
      ensures Shifts(relief, config.kind, strictMotif) ==>
                x' == x + AxisShift(relief, winWidth - width) && y' == y + AxisShift(relief, winHeight - height)
      ensures x <= x' <= x + 2 && y <= y' <= y + 2
    {
      x', y' := x, y;
      if relief != Raised && config.kind == PushButton && !strictMotif {
        var shiftX := if relief == Sunken then 2 else 1;
        var shiftY := shiftX;
        if relief != Ridge {
          if (winWidth - width) % 2 == 0 {
            shiftX := shiftX - 1;
          }
          if (winHeight - height) % 2 == 0 {
            shiftY := shiftY - 1;
          }
        }
        x', y' := x + shiftX, y + shiftY;
      }
    }
  }
}
