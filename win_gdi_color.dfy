/**
 * Colour names of the Win32 GDI print command (win/tkWinGDI.c):
 * `#RGB` hexadecimal specifications with their scaling to 8-bit channels,
 * the case-insensitive binary search over the X colour-name table and the
 * `system…` names that route to the Windows system colours.
 */
module WinGdiColor {
  import opened Wrappers

  /** What a colour name denotes: an RGB triple, or a Windows system colour
   *  index handed to `GetSysColor` (an OS query outside the model). */
  datatype ColorSpec = RgbColor(red: nat, green: nat, blue: nat) | SystemColor(index: nat)

  /** One row of the X colour-name table. */
  datatype XColorEntry = XColorEntry(name: string, red: nat, green: nat, blue: nat)

  /** One row of the system colour table: a name and a `COLOR_*` index. */
  datatype SystemColorEntry = SystemColorEntry(name: string, index: nat)

  /** The `RGB` macro: a COLORREF with red in the low byte. */
  function ColorRef(red: nat, green: nat, blue: nat): nat
  {
    red + 256 * green + 65536 * blue
  }

  /** The channels come back out of a COLORREF. */
  lemma ColorRefChannels(red: nat, green: nat, blue: nat)
    requires red < 256 && green < 256 && blue < 256
    ensures ColorRef(red, green, blue) % 256 == red
    ensures ColorRef(red, green, blue) / 256 % 256 == green
    ensures ColorRef(red, green, blue) / 65536 == blue
  {
    var c := ColorRef(red, green, blue);
    assert c == red + 256 * (green + 256 * blue);
    assert c / 256 == green + 256 * blue;
    assert c / 65536 == (c / 256) / 256;
  }

  // ---------------------------------------------------------------------
  // Case-insensitive comparison (_strcmpi, _strnicmp)
  // ---------------------------------------------------------------------

  /** ASCII lower-casing, as the C library does in the "C" locale. */
  function Lower(c: char): char
  {
    if 'A' <= c <= 'Z' then (c as int + 32) as char else c
  }

  /** `_strcmpi` from position k on: the sign of the first character that
   *  differs after lower-casing, a proper prefix being smaller (its
   *  terminating NUL is). */
  function CompareFrom(a: string, b: string, k: nat): int
    requires k <= |a| && k <= |b|
    decreases |a| - k
  {
    if k == |a| && k == |b| then 0
    else if k == |a| then -1
    else if k == |b| then 1
    else if Lower(a[k]) < Lower(b[k]) then -1
    else if Lower(a[k]) > Lower(b[k]) then 1
    else CompareFrom(a, b, k + 1)
  }

  /** `_strcmpi`. */
  function CompareCI(a: string, b: string): int
  {
    CompareFrom(a, b, 0)
  }

  /** Two names are the same colour name when they agree up to case. */
  predicate SameName(a: string, b: string)
  {
    |a| == |b| && forall i :: 0 <= i < |a| ==> Lower(a[i]) == Lower(b[i])
  }

  lemma {:induction false} CompareFromZeroIff(a: string, b: string, k: nat)
    requires k <= |a| && k <= |b|
    ensures CompareFrom(a, b, k) == 0 <==>
              |a| == |b| && forall i :: k <= i < |a| ==> Lower(a[i]) == Lower(b[i])
    decreases |a| - k
  {
    if k < |a| && k < |b| && Lower(a[k]) == Lower(b[k]) {
      CompareFromZeroIff(a, b, k + 1);
    }
  }

  lemma {:induction false} CompareFromAntisymmetric(a: string, b: string, k: nat)
    requires k <= |a| && k <= |b|
    ensures CompareFrom(a, b, k) == -CompareFrom(b, a, k)
    decreases |a| - k
  {
    if k < |a| && k < |b| && Lower(a[k]) == Lower(b[k]) {
      CompareFromAntisymmetric(a, b, k + 1);
    }
  }

  lemma {:induction false} CompareFromTransitive(a: string, b: string, c: string, k: nat)
    requires k <= |a| && k <= |b| && k <= |c|
    requires CompareFrom(a, b, k) < 0 && CompareFrom(b, c, k) < 0
    ensures CompareFrom(a, c, k) < 0
    decreases |a| - k
  {
    if k < |a| && k < |b| && k < |c| && Lower(a[k]) == Lower(b[k]) && Lower(b[k]) == Lower(c[k]) {
      CompareFromTransitive(a, b, c, k + 1);
    }
  }

  /** `_strcmpi` returns 0 exactly for names equal up to case. */
  lemma CompareCIZeroIff(a: string, b: string)
    ensures CompareCI(a, b) == 0 <==> SameName(a, b)
  {
    CompareFromZeroIff(a, b, 0);
  }

  lemma CompareCIAntisymmetric(a: string, b: string)
    ensures CompareCI(a, b) == -CompareCI(b, a)
  {
    CompareFromAntisymmetric(a, b, 0);
  }

  lemma CompareCITransitive(a: string, b: string, c: string)
    requires CompareCI(a, b) < 0 && CompareCI(b, c) < 0
    ensures CompareCI(a, c) < 0
  {
    CompareFromTransitive(a, b, c, 0);
  }

  /** `_strnicmp(name, "system", 6) == 0`. */
  predicate HasSystemPrefix(name: string)
  {
    |name| >= 6 && forall i :: 0 <= i < 6 ==> Lower(name[i]) == "system"[i]
  }

  // ---------------------------------------------------------------------
  // Binary search
  // ---------------------------------------------------------------------

  /** A table whose names strictly increase under `_strcmpi`. */
  predicate Sorted(names: seq<string>)
  {
    forall i, j :: 0 <= i < j < |names| ==> CompareCI(names[i], names[j]) < 0
  }

  /** Neighbouring names increase: enough, by transitivity, for `Sorted`. */
  predicate AdjacentSorted(names: seq<string>)
  {
    forall i :: 0 <= i < |names| - 1 ==> CompareCI(names[i], names[i + 1]) < 0
  }

  lemma {:induction false} AdjacentSortedIsSorted(names: seq<string>)
    requires AdjacentSorted(names)
    ensures Sorted(names)
  {
    forall i, j | 0 <= i < j < |names|
      ensures CompareCI(names[i], names[j]) < 0
    {
      AdjacentChain(names, i, j);
    }
  }

  lemma {:induction false} AdjacentChain(names: seq<string>, i: nat, j: nat)
    requires AdjacentSorted(names)
    requires i < j < |names|
    ensures CompareCI(names[i], names[j]) < 0
    decreases j - i
  {
    if i + 1 < j {
      AdjacentChain(names, i + 1, j);
      CompareCITransitive(names[i], names[i + 1], names[j]);
    }
  }

  /** What one probe of the source's loop does. */
  datatype Probe = Found(at: nat) | Missing | OutOfRange(at: nat)

  /** The search loop exactly as written: `l = 0`, `u` = table length, and
   *  the midpoint probed while `l <= u`. */
  function SearchAsWritten(names: seq<string>, key: string, l: nat, u: int): Probe
    requires u <= |names|
    decreases u - l
  {
    if l > u then Missing
    else
      var i := (l + u) / 2;
      if i >= |names| then OutOfRange(i)
      else
        var r := CompareCI(key, names[i]);
        if r == 0 then Found(i)
        else if r < 0 then SearchAsWritten(names, key, l, i - 1)
        else SearchAsWritten(names, key, i + 1, u)
  }

  /** A name after every entry of a table makes the written loop read the
   *  element one past the end. */
  lemma {:induction false} AsWrittenProbesPastEnd(names: seq<string>, key: string, l: nat)
    requires l <= |names|
    requires forall j :: l <= j < |names| ==> CompareCI(key, names[j]) > 0
    ensures SearchAsWritten(names, key, l, |names|) == OutOfRange(|names|)
    decreases |names| - l
  {
    var i := (l + |names|) / 2;
    if i < |names| {
      AsWrittenProbesPastEnd(names, key, i + 1);
    }
  }

  /** The corrected search: the upper bound starts at the last index. A hit
   *  is a name equal up to case; on a sorted table a miss means no entry
   *  has that name. */
  method Search(names: seq<string>, key: string) returns (found: Option<nat>)
    ensures found.Some? ==> found.value < |names| && SameName(key, names[found.value])
    ensures Sorted(names) && found.None? ==>
              forall j :: 0 <= j < |names| ==> !SameName(key, names[j])
  {
    var l: int, u: int := 0, |names| - 1;
    while l <= u
      invariant 0 <= l <= u + 1 && u < |names|
      invariant Sorted(names) ==> forall j :: 0 <= j < l ==> CompareCI(key, names[j]) > 0
      invariant Sorted(names) ==> forall j :: u < j < |names| ==> CompareCI(key, names[j]) < 0
      decreases u - l
    {
      var i := (l + u) / 2;
      var r := CompareCI(key, names[i]);
      if r == 0 {
        CompareCIZeroIff(key, names[i]);
        return Some(i);
      }
      if r < 0 {
        BelowProbe(names, key, i);
        u := i - 1;
      } else {
        AboveProbe(names, key, i);
        l := i + 1;
      }
    }
    forall j | 0 <= j < |names| && Sorted(names)
      ensures !SameName(key, names[j])
    {
      CompareCIZeroIff(key, names[j]);
    }
    return None;
  }

  /** A key below the probe is below every later entry of a sorted table. */
  lemma BelowProbe(names: seq<string>, key: string, i: nat)
    requires i < |names| && CompareCI(key, names[i]) < 0
    ensures Sorted(names) ==> forall j :: i <= j < |names| ==> CompareCI(key, names[j]) < 0
  {
    if Sorted(names) {
      forall j | i < j < |names|
        ensures CompareCI(key, names[j]) < 0
      {
        CompareCITransitive(key, names[i], names[j]);
      }
    }
  }

  /** A key above the probe is above every earlier entry of a sorted table. */
  lemma AboveProbe(names: seq<string>, key: string, i: nat)
    requires i < |names| && CompareCI(key, names[i]) > 0
    ensures Sorted(names) ==> forall j :: 0 <= j <= i ==> CompareCI(key, names[j]) > 0
  {
    if Sorted(names) {
      forall j | 0 <= j < i
        ensures CompareCI(key, names[j]) > 0
      {
        CompareCIAntisymmetric(key, names[i]);
        CompareCITransitive(names[j], names[i], key);
        CompareCIAntisymmetric(key, names[j]);
      }
    }
  }

  // ---------------------------------------------------------------------
  // Tables
  // ---------------------------------------------------------------------

  /** The system colour table, with the `COLOR_*` values of winuser.h. */
  const SysColors: seq<SystemColorEntry> := [
    SystemColorEntry("3dDarkShadow", 21),
    SystemColorEntry("3dLight", 22),
    SystemColorEntry("ActiveBorder", 10),
    SystemColorEntry("ActiveCaption", 2),
    SystemColorEntry("AppWorkspace", 12),
    SystemColorEntry("Background", 1),
    SystemColorEntry("ButtonFace", 15),
    SystemColorEntry("ButtonHighlight", 20),
    SystemColorEntry("ButtonShadow", 16),
    SystemColorEntry("ButtonText", 18),
    SystemColorEntry("CaptionText", 9),
    SystemColorEntry("DisabledText", 17),
    SystemColorEntry("GrayText", 17),
    SystemColorEntry("Highlight", 13),
    SystemColorEntry("HighlightText", 14),
    SystemColorEntry("InactiveBorder", 11),
    SystemColorEntry("InactiveCaption", 3),
    SystemColorEntry("InactiveCaptionText", 19),
    SystemColorEntry("InfoBackground", 24),
    SystemColorEntry("InfoText", 23),
    SystemColorEntry("Menu", 4),
    SystemColorEntry("MenuText", 7),
    SystemColorEntry("Scrollbar", 0),
    SystemColorEntry("Window", 5),
    SystemColorEntry("WindowFrame", 6),
    SystemColorEntry("WindowText", 8)
  ]

  function SysColorNames(): (r: seq<string>)
    ensures |r| == |SysColors|
    ensures forall i :: 0 <= i < |r| ==> r[i] == SysColors[i].name
  {
    seq(|SysColors|, i requires 0 <= i < |SysColors| => SysColors[i].name)
  }

  function XColorNames(xColors: seq<XColorEntry>): (r: seq<string>)
    ensures |r| == |xColors|
    ensures forall i :: 0 <= i < |r| ==> r[i] == xColors[i].name
  {
    seq(|xColors|, i requires 0 <= i < |xColors| => xColors[i].name)
  }

  /** The system colour table is in strictly increasing case-insensitive
   *  order, so the search finds every name in it. */
  lemma SysColorsSorted()
    ensures Sorted(SysColorNames())
  {
    SysColorsAdjacent0();
    SysColorsAdjacent1();
    SysColorsAdjacent2();
    SysColorsAdjacent3();
    SysColorsAdjacent4();
    SysColorsAdjacent5();
    SysColorsAdjacent6();
    SysColorsAdjacent7();
    SysColorsAdjacent8();
    AdjacentSortedIsSorted(SysColorNames());
  }

  lemma SysColorsAdjacent0()
    ensures forall i :: 0 <= i < 3 ==> CompareCI(SysColors[i].name, SysColors[i + 1].name) < 0
  {
    assert SysColors[0].name == "3dDarkShadow";
    assert SysColors[1].name == "3dLight";
    assert SysColors[2].name == "ActiveBorder";
    assert SysColors[3].name == "ActiveCaption";
    assert CompareFrom("ActiveBorder", "ActiveCaption", 6) < 0;
    assert CompareFrom("ActiveBorder", "ActiveCaption", 4) < 0;
  }

  lemma SysColorsAdjacent1()
    ensures forall i :: 3 <= i < 6 ==> CompareCI(SysColors[i].name, SysColors[i + 1].name) < 0
  {
    assert SysColors[3].name == "ActiveCaption";
    assert SysColors[4].name == "AppWorkspace";
    assert SysColors[5].name == "Background";
    assert SysColors[6].name == "ButtonFace";
  }

  lemma SysColorsAdjacent2()
    ensures forall i :: 6 <= i < 9 ==> CompareCI(SysColors[i].name, SysColors[i + 1].name) < 0
  {
    assert SysColors[6].name == "ButtonFace";
    assert SysColors[7].name == "ButtonHighlight";
    assert SysColors[8].name == "ButtonShadow";
    assert SysColors[9].name == "ButtonText";
    assert CompareFrom("ButtonFace", "ButtonHighlight", 6) < 0;
    assert CompareFrom("ButtonFace", "ButtonHighlight", 4) < 0;
    assert CompareFrom("ButtonHighlight", "ButtonShadow", 6) < 0;
    assert CompareFrom("ButtonHighlight", "ButtonShadow", 4) < 0;
    assert CompareFrom("ButtonShadow", "ButtonText", 6) < 0;
    assert CompareFrom("ButtonShadow", "ButtonText", 4) < 0;
  }

  lemma SysColorsAdjacent3()
    ensures forall i :: 9 <= i < 12 ==> CompareCI(SysColors[i].name, SysColors[i + 1].name) < 0
  {
    assert SysColors[9].name == "ButtonText";
    assert SysColors[10].name == "CaptionText";
    assert SysColors[11].name == "DisabledText";
    assert SysColors[12].name == "GrayText";
  }

  lemma SysColorsAdjacent4()
    ensures forall i :: 12 <= i < 15 ==> CompareCI(SysColors[i].name, SysColors[i + 1].name) < 0
  {
    assert SysColors[12].name == "GrayText";
    assert SysColors[13].name == "Highlight";
    assert SysColors[14].name == "HighlightText";
    assert SysColors[15].name == "InactiveBorder";
    assert CompareFrom("Highlight", "HighlightText", 9) < 0;
    assert CompareFrom("Highlight", "HighlightText", 8) < 0;
    assert CompareFrom("Highlight", "HighlightText", 4) < 0;
  }

  lemma SysColorsAdjacent5()
    ensures forall i :: 15 <= i < 17 ==> CompareCI(SysColors[i].name, SysColors[i + 1].name) < 0
  {
    assert SysColors[15].name == "InactiveBorder";
    assert SysColors[16].name == "InactiveCaption";
    assert SysColors[17].name == "InactiveCaptionText";
    assert CompareFrom("InactiveBorder", "InactiveCaption", 8) < 0;
    assert CompareFrom("InactiveBorder", "InactiveCaption", 4) < 0;
    assert CompareFrom("InactiveCaption", "InactiveCaptionText", 15) < 0;
    assert CompareFrom("InactiveCaption", "InactiveCaptionText", 12) < 0;
    assert CompareFrom("InactiveCaption", "InactiveCaptionText", 8) < 0;
    assert CompareFrom("InactiveCaption", "InactiveCaptionText", 4) < 0;
  }

  lemma SysColorsAdjacent6()
    ensures forall i :: 17 <= i < 19 ==> CompareCI(SysColors[i].name, SysColors[i + 1].name) < 0
  {
    assert SysColors[17].name == "InactiveCaptionText";
    assert SysColors[18].name == "InfoBackground";
    assert SysColors[19].name == "InfoText";
    assert CompareFrom("InfoBackground", "InfoText", 4) < 0;
  }

  lemma SysColorsAdjacent7()
    ensures forall i :: 19 <= i < 22 ==> CompareCI(SysColors[i].name, SysColors[i + 1].name) < 0
  {
    assert SysColors[19].name == "InfoText";
    assert SysColors[20].name == "Menu";
    assert SysColors[21].name == "MenuText";
    assert SysColors[22].name == "Scrollbar";
    assert CompareFrom("Menu", "MenuText", 4) < 0;
  }

  lemma SysColorsAdjacent8()
    ensures forall i :: 22 <= i < 25 ==> CompareCI(SysColors[i].name, SysColors[i + 1].name) < 0
  {
    assert SysColors[22].name == "Scrollbar";
    assert SysColors[23].name == "Window";
    assert SysColors[24].name == "WindowFrame";
    assert SysColors[25].name == "WindowText";
    assert CompareFrom("Window", "WindowFrame", 6) < 0;
    assert CompareFrom("Window", "WindowFrame", 4) < 0;
    assert CompareFrom("WindowFrame", "WindowText", 6) < 0;
    assert CompareFrom("WindowFrame", "WindowText", 4) < 0;
  }

  /** With the source's own system table, `systemZz` sorts after the last
   *  entry and the written loop reads `sysColors[26]`. */
  lemma SystemSearchReadsPastEnd()
    ensures SearchAsWritten(SysColorNames(), "Zz", 0, |SysColors|) == OutOfRange(26)
  {
    var n := SysColorNames();
    forall j | 0 <= j < |n|
      ensures CompareCI("Zz", n[j]) > 0
    {
      SysNameBelowZ(j);
    }
    AsWrittenProbesPastEnd(n, "Zz", 0);
  }

  lemma SysNameBelowZ(j: nat)
    requires j < |SysColors|
    ensures CompareCI("Zz", SysColorNames()[j]) > 0
  {
    var s := SysColorNames()[j];
    assert Lower(s[0]) < 'z';
  }

  // ---------------------------------------------------------------------
  // Hexadecimal specifications
  // ---------------------------------------------------------------------

  function HexDigit(c: char): Option<nat>
  {
    if '0' <= c <= '9' then Some(c as int - '0' as int)
    else if 'a' <= c <= 'f' then Some(c as int - 'a' as int + 10)
    else if 'A' <= c <= 'F' then Some(c as int - 'A' as int + 10)
    else None
  }

  predicate IsHexDigit(c: char)
  {
    HexDigit(c).Some?
  }

  predicate AllHex(s: string)
  {
    forall i :: 0 <= i < |s| ==> IsHexDigit(s[i])
  }

  function Pow16(n: nat): (r: nat)
    ensures r >= 1
  {
    if n == 0 then 1 else 16 * Pow16(n - 1)
  }

  /** A field of hexadecimal digits read most significant first. */
  function HexValue(s: string): Option<nat>
  {
    if |s| == 0 then Some(0)
    else
      match (HexValue(s[..|s| - 1]), HexDigit(s[|s| - 1]))
      case (Some(p), Some(d)) => Some(16 * p + d)
      case _ => None
  }

  lemma {:induction false} HexValueDefined(s: string)
    ensures HexValue(s).Some? <==> AllHex(s)
  {
    if |s| > 0 {
      HexValueDefined(s[..|s| - 1]);
    }
  }

  lemma {:induction false} HexValueBound(s: string)
    requires HexValue(s).Some?
    ensures HexValue(s).value < Pow16(|s|)
  {
    if |s| > 0 {
      HexValueBound(s[..|s| - 1]);
    }
  }

  /** The scaling to 8 bits per channel for one to four digits. */
  function Scale(v: nat, digits: nat): nat
  {
    if digits == 1 then v * 16
    else if digits == 2 then v
    else if digits == 3 then v / 16
    else v / 256
  }

  lemma ScaleFitsByte(v: nat, digits: nat)
    requires 1 <= digits <= 4 && v < Pow16(digits)
    ensures Scale(v, digits) < 256
  {
    assert Pow16(1) == 16;
    assert Pow16(2) == 256;
    assert Pow16(3) == 4096;
    assert Pow16(4) == 65536;
  }

  /** The digits after `#`: 3, 6, 9 or 12 hexadecimal digits, split into
   *  three equal fields. */
  function ParseHex(digits: string): Option<ColorSpec>
  {
    var i := |digits|;
    if i % 3 != 0 || i > 12 || i < 3 then None
    else
      var n := i / 3;
      match (HexValue(digits[..n]), HexValue(digits[n..2 * n]), HexValue(digits[2 * n..]))
      case (Some(r), Some(g), Some(b)) => Some(RgbColor(Scale(r, n), Scale(g, n), Scale(b, n)))
      case _ => None
  }

  /** Well-formed hexadecimal specifications are exactly the accepted ones. */
  lemma ParseHexAccepts(digits: string)
    ensures ParseHex(digits).Some? <==>
              (|digits| == 3 || |digits| == 6 || |digits| == 9 || |digits| == 12) &&
              AllHex(digits)
  {
    var i := |digits|;
    if i % 3 == 0 && 3 <= i <= 12 {
      var n := i / 3;
      HexValueDefined(digits[..n]);
      HexValueDefined(digits[n..2 * n]);
      HexValueDefined(digits[2 * n..]);
      FieldsAllHex(digits, n);
    }
  }

  /** A string of three fields is all digits exactly when each field is. */
  lemma FieldsAllHex(d: string, n: nat)
    requires |d| == 3 * n
    ensures AllHex(d) <==> AllHex(d[..n]) && AllHex(d[n..2 * n]) && AllHex(d[2 * n..])
  {
    if !AllHex(d) {
      var k :| 0 <= k < |d| && !IsHexDigit(d[k]);
      if k < n {
        assert d[..n][k] == d[k];
      } else if k < 2 * n {
        assert d[n..2 * n][k - n] == d[k];
      } else {
        assert d[2 * n..][k - 2 * n] == d[k];
      }
    }
  }

  /** Every accepted specification gives channels of at most 8 bits. */
  lemma ParseHexFitsBytes(digits: string)
    requires ParseHex(digits).Some?
    ensures ParseHex(digits).value.RgbColor?
    ensures ParseHex(digits).value.red < 256
    ensures ParseHex(digits).value.green < 256
    ensures ParseHex(digits).value.blue < 256
  {
    var n := |digits| / 3;
    HexValueBound(digits[..n]);
    HexValueBound(digits[n..2 * n]);
    HexValueBound(digits[2 * n..]);
    ScaleFitsByte(HexValue(digits[..n]).value, n);
    ScaleFitsByte(HexValue(digits[n..2 * n]).value, n);
    ScaleFitsByte(HexValue(digits[2 * n..]).value, n);
  }

  function HexChar(d: nat): char
    requires d < 16
  {
    if d < 10 then ('0' as int + d) as char else ('a' as int + d - 10) as char
  }

  /** A value written as exactly n lower-case hexadecimal digits. */
  function Hex(v: nat, n: nat): (r: string)
    ensures |r| == n
  {
    if n == 0 then [] else Hex(v / 16, n - 1) + [HexChar(v % 16)]
  }

  lemma {:induction false} HexRoundTrip(v: nat, n: nat)
    requires v < Pow16(n)
    ensures HexValue(Hex(v, n)) == Some(v)
  {
    if n > 0 {
      var s := Hex(v, n);
      assert s[..|s| - 1] == Hex(v / 16, n - 1);
      HexRoundTrip(v / 16, n - 1);
    }
  }

  /** Writing three channels with n digits each and parsing gives each
   *  channel scaled to 8 bits: shifted up for one digit, kept for two, the
   *  top eight bits for three and four. */
  lemma ParseHexOfFormatted(r: nat, g: nat, b: nat, n: nat)
    requires 1 <= n <= 4
    requires r < Pow16(n) && g < Pow16(n) && b < Pow16(n)
    ensures ParseHex(Hex(r, n) + Hex(g, n) + Hex(b, n)) ==
              Some(RgbColor(Scale(r, n), Scale(g, n), Scale(b, n)))
  {
    HexRoundTrip(r, n);
    HexRoundTrip(g, n);
    HexRoundTrip(b, n);
    ThreeFields(Hex(r, n), Hex(g, n), Hex(b, n));
    ParseHexOfFields(Hex(r, n) + Hex(g, n) + Hex(b, n), n, r, g, b);
  }

  lemma ThreeFields(x: string, y: string, z: string)
    requires |x| == |y| == |z|
    ensures var s, n := x + y + z, |x|;
      |s| == 3 * n && s[..n] == x && s[n..2 * n] == y && s[2 * n..] == z
  {
    var s, n := x + y + z, |x|;
    assert s[..n] == x;
    assert s[n..2 * n] == y;
    assert s[2 * n..] == z;
  }

  /** Three well-formed fields of n digits each are parsed field by field. */
  lemma ParseHexOfFields(s: string, n: nat, r: nat, g: nat, b: nat)
    requires 1 <= n <= 4 && |s| == 3 * n
    requires HexValue(s[..n]) == Some(r)
    requires HexValue(s[n..2 * n]) == Some(g)
    requires HexValue(s[2 * n..]) == Some(b)
    ensures ParseHex(s) == Some(RgbColor(Scale(r, n), Scale(g, n), Scale(b, n)))
  {
    assert |s| / 3 == n;
  }

  /** `#rrggbb` is exact. */
  lemma SixDigitsExact(r: nat, g: nat, b: nat)
    requires r < 256 && g < 256 && b < 256
    ensures ParseHex(Hex(r, 2) + Hex(g, 2) + Hex(b, 2)) == Some(RgbColor(r, g, b))
  {
    assert Pow16(2) == 256;
    ParseHexOfFormatted(r, g, b, 2);
  }

  // ---------------------------------------------------------------------
  // GdiParseColor and GdiGetColor
  // ---------------------------------------------------------------------

  /** GdiParseColor: `#` followed by hexadecimal digits, otherwise a name
   *  looked up in the X colour table. */
  method ParseColor(name: string, xColors: seq<XColorEntry>) returns (color: Option<ColorSpec>)
    ensures |name| > 0 && name[0] == '#' ==> color == ParseHex(name[1..])
    ensures (|name| == 0 || name[0] != '#') && color.Some? ==>
              exists j :: 0 <= j < |xColors| && SameName(name, xColors[j].name) &&
                color.value == RgbColor(xColors[j].red, xColors[j].green, xColors[j].blue)
    ensures (|name| == 0 || name[0] != '#') && color.None? && Sorted(XColorNames(xColors)) ==>
              forall j :: 0 <= j < |xColors| ==> !SameName(name, xColors[j].name)
  {
    if |name| > 0 && name[0] == '#' {
      return ParseHex(name[1..]);
    }
    var found := Search(XColorNames(xColors), name);
    if found.None? {
      return None;
    }
    var e := xColors[found.value];
    return Some(RgbColor(e.red, e.green, e.blue));
  }

  /** GdiGetColor: a `system` prefix (any case) selects the system colour of
   *  that name; anything else goes to GdiParseColor. */
  method GetColor(name: string, xColors: seq<XColorEntry>) returns (color: Option<ColorSpec>)
    ensures HasSystemPrefix(name) && color.Some? ==>
              exists j :: 0 <= j < |SysColors| && SameName(name[6..], SysColors[j].name) &&
                color.value == SystemColor(SysColors[j].index)
    ensures HasSystemPrefix(name) && color.None? ==>
              forall j :: 0 <= j < |SysColors| ==> !SameName(name[6..], SysColors[j].name)
    ensures !HasSystemPrefix(name) && |name| > 0 && name[0] == '#' ==> color == ParseHex(name[1..])
    ensures !HasSystemPrefix(name) && (|name| == 0 || name[0] != '#') && color.Some? ==>
              exists j :: 0 <= j < |xColors| && SameName(name, xColors[j].name) &&
                color.value == RgbColor(xColors[j].red, xColors[j].green, xColors[j].blue)
    ensures !HasSystemPrefix(name) && (|name| == 0 || name[0] != '#') && color.None? &&
            Sorted(XColorNames(xColors)) ==>
              forall j :: 0 <= j < |xColors| ==> !SameName(name, xColors[j].name)
  {
    if HasSystemPrefix(name) {
      SysColorsSorted();
      var found := Search(SysColorNames(), name[6..]);
      if found.None? {
        return None;
      }
      return Some(SystemColor(SysColors[found.value].index));
    }
    color := ParseColor(name, xColors);
  }
}
