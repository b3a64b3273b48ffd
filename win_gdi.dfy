/**
 * Table lookups and argument rules of the Win32 GDI print command
 * (win/tkWinGDI.c): mapping-mode names, font-weight words and font style
 * words, and the DIB palette, depth and size rules of BitmapToDIB. C's
 * `atoi` is modelled here because the mode names and the dash lists of
 * the drawing commands fall back on it.
 */
module WinGdi {
  import opened Wrappers

  // ---------------------------------------------------------------------
  // atoi
  // ---------------------------------------------------------------------

  predicate IsDigit(c: char)
  {
    '0' <= c <= '9'
  }

  /** `isspace` in the "C" locale: blank, tab, newline, vertical tab, form
   *  feed, carriage return. */
  predicate IsSpace(c: char)
  {
    c == ' ' || 9 <= c as int <= 13
  }

  function DropSpace(s: string): (r: string)
    ensures |r| <= |s| && r == s[|s| - |r|..]
    ensures |r| > 0 ==> !IsSpace(r[0])
  {
    if |s| > 0 && IsSpace(s[0]) then DropSpace(s[1..]) else s
  }

  /** Length of the run of digits that starts the string. */
  function DigitRun(s: string): (n: nat)
    ensures n <= |s|
    ensures forall i :: 0 <= i < n ==> IsDigit(s[i])
    ensures n < |s| ==> !IsDigit(s[n])
  {
    if |s| > 0 && IsDigit(s[0]) then 1 + DigitRun(s[1..]) else 0
  }

  function DigitValue(c: char): nat
  {
    if IsDigit(c) then c as int - '0' as int else 0
  }

  /** A run of decimal digits read most significant first. */
  function DecValue(d: string): nat
  {
    if |d| == 0 then 0 else 10 * DecValue(d[..|d| - 1]) + DigitValue(d[|d| - 1])
  }

  /** `atoi`: white space, an optional sign and the longest run of digits
   *  that follows; 0 when there are none. */
  function Atoi(s: string): int
  {
    var t := DropSpace(s);
    if |t| > 0 && (t[0] == '-' || t[0] == '+') then
      var m: int := DecValue(t[1..][..DigitRun(t[1..])]);
      if t[0] == '-' then -m else m
    else
      DecValue(t[..DigitRun(t)])
  }

  function DigitChar(d: nat): char
    requires d < 10
  {
    ('0' as int + d) as char
  }

  /** The decimal digits of a natural number. */
  function Digits(n: nat): (r: string)
    ensures |r| > 0
    ensures forall i :: 0 <= i < |r| ==> IsDigit(r[i])
  {
    if n < 10 then [DigitChar(n)] else Digits(n / 10) + [DigitChar(n % 10)]
  }

  /** An integer as `%d` writes it. */
  function Decimal(n: int): string
  {
    if n < 0 then "-" + Digits(-n) else Digits(n)
  }

  lemma {:induction false} DecValueOfDigits(n: nat)
    ensures DecValue(Digits(n)) == n
  {
    if n >= 10 {
      var d := Digits(n);
      assert d[..|d| - 1] == Digits(n / 10);
      DecValueOfDigits(n / 10);
    }
  }

  lemma {:induction false} DigitRunOfDigits(d: string, rest: string)
    requires forall i :: 0 <= i < |d| ==> IsDigit(d[i])
    requires |rest| == 0 || !IsDigit(rest[0])
    ensures DigitRun(d + rest) == |d|
  {
    if |d| > 0 {
      assert (d + rest)[1..] == d[1..] + rest;
      DigitRunOfDigits(d[1..], rest);
    }
  }

  /** `atoi` reads back what `%d` writes, whatever non-digit follows. */
  lemma AtoiOfDecimal(n: int, rest: string)
    requires |rest| == 0 || !IsDigit(rest[0])
    ensures Atoi(Decimal(n) + rest) == n
  {
    if n < 0 {
      AtoiOfNegative(-n, rest);
    } else {
      AtoiOfDigits(n, rest);
    }
  }

  lemma AtoiOfDigits(m: nat, rest: string)
    requires |rest| == 0 || !IsDigit(rest[0])
    ensures Atoi(Digits(m) + rest) == m
  {
    DecValueOfDigits(m);
    AtoiOfDigitString(Digits(m), rest);
  }

  /** `atoi` of a non-empty run of digits and a non-digit is the run's value. */
  lemma AtoiOfDigitString(d: string, rest: string)
    requires |d| > 0 && forall i :: 0 <= i < |d| ==> IsDigit(d[i])
    requires |rest| == 0 || !IsDigit(rest[0])
    ensures Atoi(d + rest) == DecValue(d)
  {
    var s := d + rest;
    DigitRunOfDigits(d, rest);
    assert s[..|d|] == d;
    AtoiUnsigned(s, d);
  }

  /** `atoi` reads back a number written alone. */
  lemma AtoiOfDigitsAlone(m: nat)
    ensures Atoi(Digits(m)) == m
  {
    var d := Digits(m);
    assert DigitRun(d) == |d|;
    assert d[..|d|] == d;
    AtoiUnsigned(d, d);
    DecValueOfDigits(m);
  }

  /** A string that starts with a digit is read as its leading digit run. */
  lemma AtoiUnsigned(s: string, d: string)
    requires |s| > 0 && IsDigit(s[0])
    requires DigitRun(s) <= |s| && s[..DigitRun(s)] == d
    ensures Atoi(s) == DecValue(d)
  {
    assert !IsSpace(s[0]) && s[0] != '-' && s[0] != '+';
    assert DropSpace(s) == s;
  }

  lemma AtoiOfNegative(m: nat, rest: string)
    requires |rest| == 0 || !IsDigit(rest[0])
    ensures Atoi("-" + Digits(m) + rest) == -(m as int)
  {
    DecValueOfDigits(m);
    AtoiOfNegativeString(Digits(m), rest);
  }

  lemma AtoiOfNegativeString(d: string, rest: string)
    requires |d| > 0 && forall i :: 0 <= i < |d| ==> IsDigit(d[i])
    requires |rest| == 0 || !IsDigit(rest[0])
    ensures Atoi("-" + d + rest) == -(DecValue(d) as int)
  {
    var t := d + rest;
    var s := "-" + d + rest;
    assert s == "-" + t;
    assert DigitRun(t) == |d| by { DigitRunOfDigits(d, rest); }
    assert t[..|d|] == d;
    AtoiNegative(s, t, d);
  }

  /** A string that starts with a minus sign is read as the negated digit
   *  run that follows it. */
  lemma AtoiNegative(s: string, t: string, d: string)
    requires |s| > 0 && s[0] == '-' && s == "-" + t
    requires DigitRun(t) <= |t| && t[..DigitRun(t)] == d
    ensures Atoi(s) == -(DecValue(d) as int)
  {
    assert s[1..] == t;
    assert !IsSpace(s[0]);
    assert DropSpace(s) == s;
  }

  // ---------------------------------------------------------------------
  // Mapping modes (GdiNameToMode, GdiModeToName)
  // ---------------------------------------------------------------------

  /** The mapping-mode values of wingdi.h. */
  const MM_TEXT := 1
  const MM_LOMETRIC := 2
  const MM_HIMETRIC := 3
  const MM_LOENGLISH := 4
  const MM_HIENGLISH := 5
  const MM_TWIPS := 6
  const MM_ISOTROPIC := 7
  const MM_ANISOTROPIC := 8

  datatype ModeName = ModeName(mode: int, name: string)

  /** The names GdiNameToMode accepts. */
  const ModeNames: seq<ModeName> := [
    ModeName(MM_ANISOTROPIC, "MM_ANISOTROPIC"),
    ModeName(MM_HIENGLISH, "MM_HIENGLISH"),
    ModeName(MM_HIMETRIC, "MM_HIMETRIC"),
    ModeName(MM_ISOTROPIC, "MM_ISOTROPIC"),
    ModeName(MM_LOENGLISH, "MM_LOENGLISH"),
    ModeName(MM_LOMETRIC, "MM_LOMETRIC"),
    ModeName(MM_TEXT, "MM_TEXT"),
    ModeName(MM_TWIPS, "MM_TWIPS")
  ]

  /** The descriptions GdiModeToName returns. */
  const ModeDescriptions: seq<ModeName> := [
    ModeName(MM_ANISOTROPIC, "Anisotropic"),
    ModeName(MM_HIENGLISH, "1/1000 inch"),
    ModeName(MM_HIMETRIC, "1/100 mm"),
    ModeName(MM_ISOTROPIC, "Isotropic"),
    ModeName(MM_LOENGLISH, "1/100 inch"),
    ModeName(MM_LOMETRIC, "1/10 mm"),
    ModeName(MM_TEXT, "1 to 1"),
    ModeName(MM_TWIPS, "1/1440 inch")
  ]

  /** The mode of the first entry with this name, if any. */
  function ModeNamed(t: seq<ModeName>, name: string): (r: Option<int>)
    ensures r.Some? ==> exists i :: 0 <= i < |t| && t[i].name == name && t[i].mode == r.value
    ensures r.None? <==> forall i :: 0 <= i < |t| ==> t[i].name != name
  {
    if |t| == 0 then None
    else if t[0].name == name then Some(t[0].mode)
    else
      var r := ModeNamed(t[1..], name);
      assert r.Some? ==> exists i :: 1 <= i < |t| && t[i].name == name && t[i].mode == r.value by {
        if r.Some? {
          var i :| 0 <= i < |t[1..]| && t[1..][i].name == name && t[1..][i].mode == r.value;
          assert t[i + 1] == t[1..][i];
        }
      }
      r
  }

  /** The name of the first entry with this mode, if any. */
  function NameOfMode(t: seq<ModeName>, mode: int): (r: Option<string>)
    ensures r.Some? ==> exists i :: 0 <= i < |t| && t[i].mode == mode && t[i].name == r.value
    ensures r.None? <==> forall i :: 0 <= i < |t| ==> t[i].mode != mode
  {
    if |t| == 0 then None
    else if t[0].mode == mode then Some(t[0].name)
    else
      var r := NameOfMode(t[1..], mode);
      assert r.Some? ==> exists i :: 1 <= i < |t| && t[i].mode == mode && t[i].name == r.value by {
        if r.Some? {
          var i :| 0 <= i < |t[1..]| && t[1..][i].mode == mode && t[1..][i].name == r.value;
          assert t[i + 1] == t[1..][i];
        }
      }
      r
  }

  /** The mode a name stands for: the table's mode, or `atoi` of it. */
  function ModeOfName(name: string): int
  {
    match ModeNamed(ModeNames, name)
    case Some(m) => m
    case None => Atoi(name)
  }

  /** The description of a mode, "Unknown" when the table has none. */
  function DescriptionOfMode(mode: int): string
  {
    match NameOfMode(ModeDescriptions, mode)
    case Some(n) => n
    case None => "Unknown"
  }

  /** The two tables list the same modes, each once. */
  predicate SameModes()
  {
    forall i :: 0 <= i < |ModeNames| ==> ModeNames[i].mode == ModeDescriptions[i].mode
  }

  lemma ModeNamedFrom(t: seq<ModeName>, i: nat, name: string)
    requires i < |t|
    ensures ModeNamed(t[i..], name) ==
            if t[i].name == name then Some(t[i].mode) else ModeNamed(t[i + 1..], name)
  {
    assert t[i..][1..] == t[i + 1..];
  }

  lemma NameOfModeFrom(t: seq<ModeName>, i: nat, mode: int)
    requires i < |t|
    ensures NameOfMode(t[i..], mode) ==
            if t[i].mode == mode then Some(t[i].name) else NameOfMode(t[i + 1..], mode)
  {
    assert t[i..][1..] == t[i + 1..];
  }

  /** GdiNameToMode: the first table entry with exactly this name. */
  method NameToMode(name: string) returns (mode: int)
    ensures mode == ModeOfName(name)
  {
    for i := 0 to |ModeNames|
      invariant ModeNamed(ModeNames, name) == ModeNamed(ModeNames[i..], name)
    {
      ModeNamedFrom(ModeNames, i, name);
      if ModeNames[i].name == name {
        return ModeNames[i].mode;
      }
    }
    return Atoi(name);
  }

  /** GdiModeToName: the first table entry with this mode. */
  method ModeToName(mode: int) returns (name: string)
    ensures name == DescriptionOfMode(mode)
  {
    for i := 0 to |ModeDescriptions|
      invariant NameOfMode(ModeDescriptions, mode) == NameOfMode(ModeDescriptions[i..], mode)
    {
      NameOfModeFrom(ModeDescriptions, i, mode);
      if ModeDescriptions[i].mode == mode {
        return ModeDescriptions[i].name;
      }
    }
    return "Unknown";
  }

  /** Every name of the table stands for its own mode: the names differ. */
  lemma ModeOfTableName(i: nat)
    requires i < |ModeNames|
    ensures ModeOfName(ModeNames[i].name) == ModeNames[i].mode
  {
    var r := ModeNamed(ModeNames, ModeNames[i].name);
    var j :| 0 <= j < |ModeNames| && ModeNames[j].name == ModeNames[i].name && ModeNames[j].mode == r.value;
    ModeNamesDistinct(i, j);
  }

  lemma ModeNamesDistinct(i: nat, j: nat)
    requires i < |ModeNames| && j < |ModeNames|
    requires ModeNames[i].name == ModeNames[j].name
    ensures i == j
  {
    assert |ModeNames[i].name| >= 7;
    assert ModeNames[i].name[3] == ModeNames[j].name[3];
    assert ModeNames[i].name[4] == ModeNames[j].name[4];
    assert ModeNames[i].name[5] == ModeNames[j].name[5];
  }

  /** A number written in decimal is taken as the mode number itself: no
   *  table name starts with a digit or a minus sign. */
  lemma ModeOfDecimal(n: int)
    ensures ModeOfName(Decimal(n)) == n
  {
    var d := Decimal(n);
    assert d[0] == '-' || IsDigit(d[0]);
    forall j | 0 <= j < |ModeNames|
      ensures ModeNames[j].name != d
    {
      assert ModeNames[j].name[0] == 'M';
    }
    AtoiOfDecimal(n, "");
    assert d + "" == d;
  }

  /** The modes with a description are exactly MM_TEXT .. MM_ANISOTROPIC. */
  lemma DescribedModes(mode: int)
    ensures DescriptionOfMode(mode) != "Unknown" <==> MM_TEXT <= mode <= MM_ANISOTROPIC
  {
    var r := NameOfMode(ModeDescriptions, mode);
    if MM_TEXT <= mode <= MM_ANISOTROPIC {
      var i := DescriptionIndex(mode);
      assert ModeDescriptions[i].mode == mode;
      var j :| 0 <= j < |ModeDescriptions| && ModeDescriptions[j].mode == mode && ModeDescriptions[j].name == r.value;
      DescriptionKnown(j);
    } else {
      forall i | 0 <= i < |ModeDescriptions|
        ensures ModeDescriptions[i].mode != mode
      {
        DescriptionKnown(i);
      }
    }
  }

  /** Every description is a known one, of a mode in the range of wingdi.h. */
  lemma DescriptionKnown(i: nat)
    requires i < |ModeDescriptions|
    ensures ModeDescriptions[i].name != "Unknown"
    ensures MM_TEXT <= ModeDescriptions[i].mode <= MM_ANISOTROPIC
  {
    assert "Unknown"[0] == 'U';
    assert ModeDescriptions[i].name[0] != 'U';
  }

  function DescriptionIndex(mode: int): (i: nat)
    requires MM_TEXT <= mode <= MM_ANISOTROPIC
    ensures i < |ModeDescriptions| && ModeDescriptions[i].mode == mode
  {
    [0, 6, 5, 2, 4, 1, 7, 3, 0][mode]
  }

  /** Every mode GdiNameToMode knows by name has a description. */
  lemma NamedModesDescribed(i: nat)
    requires i < |ModeNames|
    ensures DescriptionOfMode(ModeOfName(ModeNames[i].name)) != "Unknown"
  {
    ModeOfTableName(i);
    assert MM_TEXT <= ModeNames[i].mode <= MM_ANISOTROPIC;
    DescribedModes(ModeNames[i].mode);
  }

  // ---------------------------------------------------------------------
  // Font words (GdiWordToWeight, GdiParseFontWords)
  // ---------------------------------------------------------------------

  /** The font weights of wingdi.h. */
  const FW_THIN := 100
  const FW_EXTRALIGHT := 200
  const FW_LIGHT := 300
  const FW_NORMAL := 400
  const FW_MEDIUM := 500
  const FW_SEMIBOLD := 600
  const FW_BOLD := 700
  const FW_EXTRABOLD := 800
  const FW_HEAVY := 900

  datatype WeightName = WeightName(name: string, weight: int)

  const FontWeights: seq<WeightName> := [
    WeightName("thin", FW_THIN),
    WeightName("extralight", FW_EXTRALIGHT),
    WeightName("ultralight", FW_EXTRALIGHT),
    WeightName("light", FW_LIGHT),
    WeightName("normal", FW_NORMAL),
    WeightName("regular", FW_NORMAL),
    WeightName("medium", FW_MEDIUM),
    WeightName("semibold", FW_SEMIBOLD),
    WeightName("demibold", FW_SEMIBOLD),
    WeightName("bold", FW_BOLD),
    WeightName("extrabold", FW_EXTRABOLD),
    WeightName("ultrabold", FW_EXTRABOLD),
    WeightName("heavy", FW_HEAVY),
    WeightName("black", FW_HEAVY)
  ]

  /** The weight of the first entry with this name, -1 when none has it. */
  function WeightIn(t: seq<WeightName>, word: string): int
  {
    if |t| == 0 then -1
    else if t[0].name == word then t[0].weight
    else WeightIn(t[1..], word)
  }

  /** The weight a word names; -1 for a NULL word or one not in the table. */
  function WeightOf(word: Option<string>): int
  {
    if word.None? then -1 else WeightIn(FontWeights, word.value)
  }

  /** A valid font weight: one of the hundreds from FW_THIN to FW_HEAVY. */
  predicate IsWeight(w: int)
  {
    FW_THIN <= w <= FW_HEAVY && w % 100 == 0
  }

  /** On a table of valid weights the lookup gives -1 exactly for names not
   *  in it, and a valid weight otherwise. */
  lemma {:induction false} WeightInTable(t: seq<WeightName>, word: string)
    requires forall i :: 0 <= i < |t| ==> IsWeight(t[i].weight)
    ensures WeightIn(t, word) == -1 <==> forall i :: 0 <= i < |t| ==> t[i].name != word
    ensures WeightIn(t, word) != -1 ==> IsWeight(WeightIn(t, word))
  {
    if |t| > 0 && t[0].name != word {
      WeightInTable(t[1..], word);
      assert forall i :: 1 <= i < |t| ==> t[i] == t[1..][i - 1];
    }
  }

  lemma FontWeightsValid()
    ensures forall i :: 0 <= i < |FontWeights| ==> IsWeight(FontWeights[i].weight)
  {
  }

  /** GdiWordToWeight. */
  method WordToWeight(word: Option<string>) returns (weight: int)
    ensures weight == WeightOf(word)
  {
    weight := -1;
    if word.None? {
      return;
    }
    for i := 0 to |FontWeights|
      invariant WeightIn(FontWeights, word.value) == WeightIn(FontWeights[i..], word.value)
    {
      assert FontWeights[i..][1..] == FontWeights[i + 1..];
      if word.value == FontWeights[i].name {
        return FontWeights[i].weight;
      }
    }
  }

  /** A word has a weight exactly when it is one of the table's names, and
   *  the weight is a valid one. */
  lemma WeightKnown(word: string)
    ensures WeightOf(Some(word)) != -1 <==>
              exists i :: 0 <= i < |FontWeights| && FontWeights[i].name == word
    ensures WeightOf(Some(word)) != -1 ==> IsWeight(WeightOf(Some(word)))
  {
    FontWeightsValid();
    WeightInTable(FontWeights, word);
  }

  /** What GdiParseFontWords sets in the LOGFONT. */
  datatype FontStyle = FontStyle(weight: int, italic: bool, underline: bool, strikeOut: bool)

  /** One word: a weight, then roman, italic, underline, overstrike; a NULL
   *  or an unknown word changes nothing. */
  function ApplyWord(f: FontStyle, word: Option<string>): FontStyle
  {
    if word.None? then f
    else if WeightOf(word) != -1 then f.(weight := WeightOf(word))
    else if word.value == "roman" then f.(italic := false)
    else if word.value == "italic" then f.(italic := true)
    else if word.value == "underline" then f.(underline := true)
    else if word.value == "overstrike" then f.(strikeOut := true)
    else f
  }

  /** The words applied left to right. */
  function ApplyWords(f: FontStyle, words: seq<Option<string>>): FontStyle
  {
    if |words| == 0 then f else ApplyWord(ApplyWords(f, words[..|words| - 1]), words[|words| - 1])
  }

  /** A non-NULL word that none of the branches recognises. */
  predicate Unrecognized(word: Option<string>)
  {
    word.Some? && WeightOf(word) == -1 &&
    word.value != "roman" && word.value != "italic" &&
    word.value != "underline" && word.value != "overstrike"
  }

  function CountUnrecognized(words: seq<Option<string>>): nat
  {
    if |words| == 0 then 0
    else CountUnrecognized(words[..|words| - 1]) + (if Unrecognized(words[|words| - 1]) then 1 else 0)
  }

  /** The LOGFONT fields GdiParseFontWords writes. */
  class LogFont {
    var weight: int
    var italic: bool
    var underline: bool
    var strikeOut: bool

    function Style(): FontStyle
      reads this
    {
      FontStyle(weight, italic, underline, strikeOut)
    }

    constructor(s: FontStyle)
      ensures Style() == s
    {
      weight, italic, underline, strikeOut := s.weight, s.italic, s.underline, s.strikeOut;
    }
  }

  /** GdiParseFontWords: applies each word to the font in turn and returns
   *  the number of words it did not recognise. */
  method ParseFontWords(lf: LogFont, words: seq<Option<string>>) returns (unparsed: nat)
    modifies lf
    ensures lf.Style() == ApplyWords(old(lf.Style()), words)
    ensures unparsed == CountUnrecognized(words)
  {
    unparsed := 0;
    for i := 0 to |words|
      invariant lf.Style() == ApplyWords(old(lf.Style()), words[..i])
      invariant unparsed == CountUnrecognized(words[..i])
    {
      assert words[..i + 1][..i] == words[..i];
      if words[i].Some? {
        var wt := WordToWeight(words[i]);
        if wt != -1 {
          lf.weight := wt;
        } else if words[i].value == "roman" {
          lf.italic := false;
        } else if words[i].value == "italic" {
          lf.italic := true;
        } else if words[i].value == "underline" {
          lf.underline := true;
        } else if words[i].value == "overstrike" {
          lf.strikeOut := true;
        } else {
          unparsed := unparsed + 1;
        }
      }
    }
    assert words[..|words|] == words;
  }

  /** Underline ends up set exactly when it was set before or some word says
   *  underline: no word clears it. */
  lemma {:induction false} UnderlineIff(f: FontStyle, words: seq<Option<string>>)
    ensures ApplyWords(f, words).underline <==>
              f.underline || exists i :: 0 <= i < |words| && words[i] == Some("underline")
  {
    if |words| > 0 {
      var init := words[..|words| - 1];
      UnderlineIff(f, init);
      UnderlineWordIsStyle();
      if exists i :: 0 <= i < |init| && init[i] == Some("underline") {
        var i :| 0 <= i < |init| && init[i] == Some("underline");
        assert words[i] == Some("underline");
      }
      if exists i :: 0 <= i < |words| && words[i] == Some("underline") {
        var i :| 0 <= i < |words| && words[i] == Some("underline");
        if i < |init| {
          assert init[i] == Some("underline");
        }
      }
    }
  }

  /** Overstrike likewise is only ever switched on. */
  lemma {:induction false} StrikeOutIff(f: FontStyle, words: seq<Option<string>>)
    ensures ApplyWords(f, words).strikeOut <==>
              f.strikeOut || exists i :: 0 <= i < |words| && words[i] == Some("overstrike")
  {
    if |words| > 0 {
      var init := words[..|words| - 1];
      StrikeOutIff(f, init);
      OverstrikeWordIsStyle();
      if exists i :: 0 <= i < |init| && init[i] == Some("overstrike") {
        var i :| 0 <= i < |init| && init[i] == Some("overstrike");
        assert words[i] == Some("overstrike");
      }
      if exists i :: 0 <= i < |words| && words[i] == Some("overstrike") {
        var i :| 0 <= i < |words| && words[i] == Some("overstrike");
        if i < |init| {
          assert init[i] == Some("overstrike");
        }
      }
    }
  }

  lemma UnderlineWordIsStyle()
    ensures WeightOf(Some("underline")) == -1
  {
    WeightKnown("underline");
  }

  lemma OverstrikeWordIsStyle()
    ensures WeightOf(Some("overstrike")) == -1
  {
    WeightKnown("overstrike");
  }

  lemma ItalicWordsAreStyles()
    ensures WeightOf(Some("roman")) == -1 && WeightOf(Some("italic")) == -1
  {
    WeightKnown("roman");
    WeightKnown("italic");
  }

  /** Words that do not name a weight. */
  predicate KeepsWeight(word: Option<string>)
  {
    WeightOf(word) == -1
  }

  /** Words that leave the italic flag alone. */
  predicate KeepsItalic(word: Option<string>)
  {
    word.None? || WeightOf(word) != -1 || (word.value != "roman" && word.value != "italic")
  }

  lemma {:induction false} LaterWordsKeepWeight(f: FontStyle, words: seq<Option<string>>, rest: seq<Option<string>>)
    requires forall i :: 0 <= i < |rest| ==> KeepsWeight(rest[i])
    ensures ApplyWords(f, words + rest).weight == ApplyWords(f, words).weight
  {
    if |rest| > 0 {
      var r := rest[..|rest| - 1];
      assert (words + rest)[..|words + rest| - 1] == words + r;
      LaterWordsKeepWeight(f, words, r);
    } else {
      assert words + rest == words;
    }
  }

  lemma {:induction false} LaterWordsKeepItalic(f: FontStyle, words: seq<Option<string>>, rest: seq<Option<string>>)
    requires forall i :: 0 <= i < |rest| ==> KeepsItalic(rest[i])
    ensures ApplyWords(f, words + rest).italic == ApplyWords(f, words).italic
  {
    if |rest| > 0 {
      var r := rest[..|rest| - 1];
      assert (words + rest)[..|words + rest| - 1] == words + r;
      LaterWordsKeepItalic(f, words, r);
    } else {
      assert words + rest == words;
    }
  }

  /** The last weight word wins. */
  lemma LastWeightWins(f: FontStyle, words: seq<Option<string>>, w: string, rest: seq<Option<string>>)
    requires WeightOf(Some(w)) != -1
    requires forall i :: 0 <= i < |rest| ==> KeepsWeight(rest[i])
    ensures ApplyWords(f, words + [Some(w)] + rest).weight == WeightOf(Some(w))
  {
    LaterWordsKeepWeight(f, words + [Some(w)], rest);
    assert (words + [Some(w)])[..|words|] == words;
  }

  /** The last of roman and italic wins. */
  lemma LastSlantWins(f: FontStyle, words: seq<Option<string>>, w: string, rest: seq<Option<string>>)
    requires w == "roman" || w == "italic"
    requires forall i :: 0 <= i < |rest| ==> KeepsItalic(rest[i])
    ensures ApplyWords(f, words + [Some(w)] + rest).italic == (w == "italic")
  {
    ItalicWordsAreStyles();
    LaterWordsKeepItalic(f, words + [Some(w)], rest);
    assert (words + [Some(w)])[..|words|] == words;
  }

  /** The count of unrecognised words is at most the number of words, and
   *  NULL words are never counted. */
  lemma {:induction false} UnrecognizedBound(words: seq<Option<string>>)
    ensures CountUnrecognized(words) <= |words|
    ensures CountUnrecognized(words) <= |words| - CountNone(words)
  {
    if |words| > 0 {
      UnrecognizedBound(words[..|words| - 1]);
    }
  }

  function CountNone(words: seq<Option<string>>): nat
  {
    if |words| == 0 then 0
    else CountNone(words[..|words| - 1]) + (if words[|words| - 1].None? then 1 else 0)
  }

  // ---------------------------------------------------------------------
  // DIB rules (DIBNumColors, BitmapToDIB)
  // ---------------------------------------------------------------------

  const U16: nat := 0x1_0000
  const U32: nat := 0x1_0000_0000

  function Pow2(n: nat): (r: nat)
    ensures r >= 1
  {
    if n == 0 then 1 else 2 * Pow2(n - 1)
  }

  /** DIBNumColors: the palette length of a DIB header. A nonzero biClrUsed
   *  is returned through a 16-bit WORD; otherwise 1, 4 and 8 bits per pixel
   *  have a full palette and deeper images none. */
  function DIBNumColors(clrUsed: nat, bitCount: nat): (r: nat)
    requires clrUsed < U32 && bitCount < U16
    ensures r < U16
    ensures 0 < clrUsed < U16 ==> r == clrUsed
    ensures clrUsed != 0 ==> r == clrUsed % U16
    ensures clrUsed == 0 && (bitCount == 1 || bitCount == 4 || bitCount == 8) ==> r == Pow2(bitCount)
    ensures clrUsed == 0 && !(bitCount == 1 || bitCount == 4 || bitCount == 8) ==> r == 0
  {
    if clrUsed != 0 then clrUsed % U16
    else if bitCount == 1 then 2
    else if bitCount == 4 then 16
    else if bitCount == 8 then 256
    else 0
  }

  /** The WORD truncation makes a biClrUsed of 65536 read as an empty
   *  palette. */
  lemma ClrUsedTruncated()
    ensures DIBNumColors(U16, 8) == 0
  {
  }

  /** bmPlanes * bmBitsPixel stored in a WORD. */
  function DepthBits(planes: nat, bitsPixel: nat): nat
  {
    (planes * bitsPixel) % U16
  }

  /** BitmapToDIB's depth: planes times bits per pixel as a WORD, rounded up
   *  to 1, 4 or 8, anything deeper forced to 24. */
  function DIBDepth(planes: nat, bitsPixel: nat): (r: nat)
    requires planes < U16 && bitsPixel < U16
    ensures r == 1 || r == 4 || r == 8 || r == 24
    ensures DepthBits(planes, bitsPixel) <= 24 ==> DepthBits(planes, bitsPixel) <= r
    ensures DepthBits(planes, bitsPixel) <= 1 ==> r <= 1
    ensures DepthBits(planes, bitsPixel) <= 4 ==> r <= 4
    ensures DepthBits(planes, bitsPixel) <= 8 ==> r <= 8
    ensures DepthBits(planes, bitsPixel) <= 1 ==> r == 1
    ensures 1 < DepthBits(planes, bitsPixel) <= 4 ==> r == 4
    ensures 4 < DepthBits(planes, bitsPixel) <= 8 ==> r == 8
    ensures DepthBits(planes, bitsPixel) > 8 ==> r == 24
  {
    var bits := DepthBits(planes, bitsPixel);
    if bits <= 1 then 1
    else if bits <= 4 then 4
    else if bits <= 8 then 8
    else 24
  }

  /** A depth that is already 1, 4, 8 or 24 is kept, so normalising twice
   *  is normalising once. */
  lemma DIBDepthIdempotent(planes: nat, bitsPixel: nat)
    requires planes < U16 && bitsPixel < U16
    ensures DIBDepth(1, DIBDepth(planes, bitsPixel)) == DIBDepth(planes, bitsPixel)
  {
  }

  /** The image size BitmapToDIB makes up when the driver leaves it 0:
   *  rows rounded up to 32 bits, in 32-bit unsigned arithmetic. */
  function DIBImageSize(width: nat, height: nat, bits: nat): nat
  {
    ((((width * bits) % U32 + 31) % U32 / 32 * 4) % U32 * height) % U32
  }

  /** Without wrap-around the size is height rows, each the fewest whole
   *  4-byte words that hold width * bits bits. */
  lemma DIBImageSizeRows(width: nat, height: nat, bits: nat)
    requires width * bits + 31 < U32
    requires RowBytes(width, bits) * height < U32
    ensures DIBImageSize(width, height, bits) == RowBytes(width, bits) * height
    ensures RowBytes(width, bits) % 4 == 0
    ensures width * bits <= 8 * RowBytes(width, bits) < width * bits + 32
  {
    var row := RowBytes(width, bits);
    RowFits(row, height);
    assert (width * bits) % U32 == width * bits;
    assert (width * bits + 31) % U32 == width * bits + 31;
    assert row % U32 == row;
  }

  lemma RowFits(row: nat, height: nat)
    requires row * height < U32
    ensures row < U32 || height == 0
  {
    if height > 0 {
      assert row * height == row + row * (height - 1);
    }
  }

  /** Bytes in one DWORD-aligned row. */
  function RowBytes(width: nat, bits: nat): nat
  {
    (width * bits + 31) / 32 * 4
  }

  /** The DIB block: header (40 bytes), palette of RGBQUADs, pixels. */
  function DIBLength(bits: nat, sizeImage: nat): (r: nat)
    requires bits < U16
    ensures bits == 24 ==> r == 40 + sizeImage
    ensures bits == 8 ==> r == 40 + 256 * 4 + sizeImage
    ensures bits == 4 ==> r == 40 + 16 * 4 + sizeImage
    ensures bits == 1 ==> r == 40 + 2 * 4 + sizeImage
    ensures bits != 1 && bits != 4 && bits != 8 ==> r == 40 + sizeImage
  {
    40 + DIBNumColors(0, bits) * 4 + sizeImage
  }
}
