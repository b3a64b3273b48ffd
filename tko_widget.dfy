/** The option table of a tko widget: the flag strings of option
 *  definitions, adding an option with its initial value, reading and
 *  writing options through one level of synonyms, hiding and showing
 *  options, and the listings that depend on the hidden bit.
 *  Strings are read the way C reads them: a character past the end is NUL. */
module TkoWidget {
  import opened Wrappers

  /** Option flag bits as C stores them in an int. */
  const READONLY: bv8 := 0x1
  const HIDE: bv8 := 0x2
  const NULLVALUE: bv8 := 0x4
  const USER: bv8 := 0x8

  /** The flag word of an option, one field per bit. */
  datatype FlagBits = FlagBits(readonly: bool, hidden: bool, nullValue: bool, user: bool)

  const NoFlags := FlagBits(false, false, false, false)

  /** The int the flags stand for. */
  function Word(f: FlagBits): bv8
  {
    (if f.readonly then READONLY else 0) | (if f.hidden then HIDE else 0) |
    (if f.nullValue then NULLVALUE else 0) | (if f.user then USER else 0)
  }

  /** Each field is recovered from its own bit of the word. */
  lemma WordBits(f: FlagBits)
    ensures Word(f) & READONLY != 0 <==> f.readonly
    ensures Word(f) & HIDE != 0 <==> f.hidden
    ensures Word(f) & NULLVALUE != 0 <==> f.nullValue
    ensures Word(f) & USER != 0 <==> f.user
  {
  }

  /** Character i of a C string, NUL past its end. */
  function At(s: string, i: nat): char
  {
    if i < |s| then s[i] else '\0'
  }

  // ---------------------------------------------------------------------
  // Flag strings
  // ---------------------------------------------------------------------

  /** The flag strings the parser accepts: empty, or 'r' or 'h' optionally
   *  followed by the other letter; later characters are not looked at. */
  predicate WellFormedFlags(s: string)
  {
    At(s, 0) == '\0' ||
    (At(s, 0) == 'r' && (At(s, 1) == '\0' || At(s, 1) == 'h')) ||
    (At(s, 0) == 'h' && (At(s, 1) == '\0' || At(s, 1) == 'r'))
  }

  /** The letter c is one of the (at most two) flag letters of s. */
  predicate Names(s: string, c: char)
  {
    At(s, 0) == c || (At(s, 0) != '\0' && At(s, 1) == c)
  }

  /** The flag parser: ORs READONLY and HIDE into `flags`, or fails;
   *  it never clears a bit. */
  function FlagsObj(s: string, flags: FlagBits): (r: Option<FlagBits>)
    ensures r.None? <==> !WellFormedFlags(s)
    ensures r.Some? ==> r.value.readonly == (flags.readonly || Names(s, 'r'))
    ensures r.Some? ==> r.value.hidden == (flags.hidden || Names(s, 'h'))
    ensures r.Some? ==> r.value.nullValue == flags.nullValue && r.value.user == flags.user
  {
    var ch0 := At(s, 0);
    var ch1 := At(s, 1);
    if ch0 == '\0' then Some(flags)
    else if ch0 == 'r' then
      if ch1 == '\0' then Some(flags.(readonly := true))
      else if ch1 == 'h' then Some(flags.(readonly := true, hidden := true))
      else None
    else if ch0 == 'h' then
      if ch1 == '\0' then Some(flags.(hidden := true))
      else if ch1 == 'r' then Some(flags.(hidden := true, readonly := true))
      else None
    else None
  }

  /** 1 when the flags say hidden, else 0. */
  function HideGet(s: string): (r: int)
    ensures r == 0 || r == 1
    ensures WellFormedFlags(s) ==> (r == 1 <==> FlagsObj(s, NoFlags).value.hidden)
  {
    if At(s, 0) == 'h' || (At(s, 0) == 'r' && At(s, 1) == 'h') then 1 else 0
  }

  /** The flags with the hidden bit added: "rh" when readonly, else "h". */
  function HideSet(s: string): (r: string)
    ensures WellFormedFlags(r) && HideGet(r) == 1
    ensures WellFormedFlags(s) ==> FlagsObj(r, NoFlags) == Some(FlagsObj(s, NoFlags).value.(hidden := true))
  {
    if At(s, 0) != '\0' && (At(s, 0) == 'r' || At(s, 1) == 'r') then "rh" else "h"
  }

  /** The hidden bit removed, as written: "h" gives "", "hr" and "rh" give
   *  "r", and every other string, "r" included, gives "". */
  function HideUnsetAsWritten(s: string): (r: string)
    ensures WellFormedFlags(r) && HideGet(r) == 0
  {
    if At(s, 0) != '\0' then
      if At(s, 0) == 'h' then
        if At(s, 1) == 'r' then "r" else ""
      else if At(s, 1) == 'h' then "r"
      else ""
    else ""
  }

  /** Unsetting the hidden bit of a readonly, visible option drops its
   *  readonly bit. */
  lemma HideUnsetDropsReadonly()
    ensures FlagsObj("r", NoFlags) == Some(NoFlags.(readonly := true))
    ensures FlagsObj(HideUnsetAsWritten("r"), NoFlags) == Some(NoFlags)
  {
  }

  /** The hidden bit removed, keeping the readonly bit. */
  function HideUnset(s: string): (r: string)
    ensures WellFormedFlags(r) && HideGet(r) == 0
    ensures WellFormedFlags(s) ==> FlagsObj(r, NoFlags) == Some(FlagsObj(s, NoFlags).value.(hidden := false))
  {
    if Names(s, 'r') then "r" else ""
  }

  /** On the flags of hidden options both versions agree. */
  lemma HideUnsetAgreesOnHidden(s: string)
    requires WellFormedFlags(s) && HideGet(s) == 1
    ensures HideUnsetAsWritten(s) == HideUnset(s)
  {
  }

  // ---------------------------------------------------------------------
  // Class-level definitions: [dbname], [dbname, flags],
  // [dbname, dbclass, default] or [dbname, dbclass, default, flags]
  // ---------------------------------------------------------------------

  /** A definition lists its option as hidden. */
  predicate DefHidden(def: seq<string>)
  {
    (|def| == 2 && HideGet(def[1]) == 1) || (|def| == 4 && HideGet(def[3]) == 1)
  }

  /** The readonly letter of a definition's flags. */
  predicate DefReadonly(def: seq<string>)
  {
    (|def| == 2 && Names(def[1], 'r')) || (|def| == 4 && Names(def[3], 'r'))
  }

  /** The definition `optionhide` stores; None leaves it as it is. */
  function ClassHide(def: seq<string>): (r: Option<seq<string>>)
    ensures r.Some? <==> 1 <= |def| <= 4
    ensures r.Some? ==> DefHidden(r.value) && r.value[0] == def[0]
    ensures r.Some? && WellFormedDef(def) ==> (DefReadonly(r.value) <==> DefReadonly(def))
  {
    if |def| == 1 then Some([def[0], "h"])
    else if |def| == 2 then Some([def[0], HideSet(def[1])])
    else if |def| == 3 then Some(def + ["h"])
    else if |def| == 4 then Some(def[..3] + [HideSet(def[3])])
    else None
  }

  /** The flags of a definition, where it has some, are well formed. */
  predicate WellFormedDef(def: seq<string>)
  {
    (|def| == 2 ==> WellFormedFlags(def[1])) && (|def| == 4 ==> WellFormedFlags(def[3]))
  }

  /** The definition `optionshow` stores, as written: a four-element
   *  definition is rebuilt but never stored. */
  function ClassShowAsWritten(def: seq<string>): (r: Option<seq<string>>)
    ensures r.Some? <==> |def| == 2
    ensures r.Some? ==> |r.value| == 2 && !DefHidden(r.value) && r.value[0] == def[0]
  {
    if |def| == 2 then Some([def[0], HideUnsetAsWritten(def[1])]) else None
  }

  /** A hidden option with a full definition stays hidden after
   *  `optionshow`. */
  lemma ClassShowLeavesFullDefinitionHidden()
    ensures ClassShowAsWritten(["background", "Background", "white", "h"]).None?
    ensures DefHidden(["background", "Background", "white", "h"])
  {
  }

  /** The corrected `optionshow` step: both shapes with flags are shown,
   *  keeping their readonly letter. */
  function ClassShow(def: seq<string>): (r: Option<seq<string>>)
    ensures r.Some? <==> |def| == 2 || |def| == 4
    ensures r.Some? ==> |r.value| == |def| && !DefHidden(r.value) && r.value[0] == def[0]
    ensures r.Some? && WellFormedDef(def) ==> (DefReadonly(r.value) <==> DefReadonly(def))
    ensures r.None? ==> !DefHidden(def)
  {
    if |def| == 2 then Some([def[0], HideUnset(def[1])])
    else if |def| == 4 then Some(def[..3] + [HideUnset(def[3])])
    else None
  }

  /** Where the written step stores a definition of a hidden option, the
   *  corrected one stores the same. */
  lemma ClassShowAgreesOnShortHidden(def: seq<string>)
    requires |def| == 2 && WellFormedFlags(def[1]) && HideGet(def[1]) == 1
    ensures ClassShowAsWritten(def) == ClassShow(def)
  {
    HideUnsetAgreesOnHidden(def[1]);
  }

  /** Whether the class-level listing without names shows a definition:
   *  `optionhide` lists definitions without flags and those whose flags
   *  are not hidden, `optionshow` those whose flags are hidden; a
   *  definition of any other length is skipped by both. */
  predicate ClassListed(def: seq<string>, hidden: bool)
  {
    if hidden then DefHidden(def)
    else |def| == 1 || |def| == 3 || (|def| == 2 && HideGet(def[1]) == 0) ||
         (|def| == 4 && HideGet(def[3]) == 0)
  }

  /** The two listings split the definitions of one to four elements
   *  between them, by the hidden letter of their flags. */
  lemma ClassListedSplits(def: seq<string>)
    ensures ClassListed(def, false) <==> 1 <= |def| <= 4 && !DefHidden(def)
    ensures ClassListed(def, true) <==> DefHidden(def)
    ensures !(ClassListed(def, false) && ClassListed(def, true))
  {
  }

  /** The names the class-level listing shows, in the order `defs` gives
   *  the class's definition dictionary. */
  function ClassListing(defs: seq<(string, seq<string>)>, hidden: bool): seq<string>
  {
    if |defs| == 0 then []
    else
      var rest := ClassListing(defs[..|defs| - 1], hidden);
      var d := defs[|defs| - 1];
      if ClassListed(d.1, hidden) then rest + [d.0] else rest
  }

  /** A name is listed exactly when one of its definitions is listed. */
  lemma {:induction false} ClassListingMembers(defs: seq<(string, seq<string>)>, hidden: bool)
    ensures forall n :: n in ClassListing(defs, hidden) <==>
                        exists j :: 0 <= j < |defs| && defs[j].0 == n && ClassListed(defs[j].1, hidden)
  {
    if |defs| > 0 {
      var front := defs[..|defs| - 1];
      ClassListingMembers(front, hidden);
      forall n | n in ClassListing(defs, hidden)
        ensures exists j :: 0 <= j < |defs| && defs[j].0 == n && ClassListed(defs[j].1, hidden)
      {
        if n in ClassListing(front, hidden) {
          var j :| 0 <= j < |front| && front[j].0 == n && ClassListed(front[j].1, hidden);
          assert defs[j] == front[j];
        } else {
          assert defs[|defs| - 1].0 == n;
        }
      }
      forall n | exists j :: 0 <= j < |defs| && defs[j].0 == n && ClassListed(defs[j].1, hidden)
        ensures n in ClassListing(defs, hidden)
      {
        var j :| 0 <= j < |defs| && defs[j].0 == n && ClassListed(defs[j].1, hidden);
        if j < |front| {
          assert front[j] == defs[j];
        }
      }
    }
  }

  /** `optionhide` / `optionshow` of a class without names: the loop over
   *  the class's definitions, in dictionary order. */
  method ClassListOptions(defs: seq<(string, seq<string>)>, hidden: bool) returns (list: seq<string>)
    ensures list == ClassListing(defs, hidden)
    ensures forall n :: n in list <==>
                        exists j :: 0 <= j < |defs| && defs[j].0 == n && ClassListed(defs[j].1, hidden)
  {
    list := [];
    for e := 0 to |defs|
      invariant list == ClassListing(defs[..e], hidden)
    {
      assert defs[..e + 1][..e] == defs[..e];
      var def := defs[e].1;
      var shown := false;
      if hidden {
        if |def| == 2 {
          shown := HideGet(def[1]) == 1;
        } else if |def| == 4 {
          shown := HideGet(def[3]) == 1;
        }
      } else {
        match |def|
        case 1 => shown := true;
        case 3 => shown := true;
        case 2 => shown := HideGet(def[1]) == 0;
        case 4 => shown := HideGet(def[3]) == 0;
        case _ =>
      }
      if shown {
        list := list + [defs[e].0];
      }
    }
    assert defs[..|defs|] == defs;
    ClassListingMembers(defs, hidden);
  }

  /** After `optionhide` a definition is listed by `optionshow` and no
   *  longer by `optionhide`; after the corrected `optionshow` the reverse. */
  lemma ClassHideShowListed(def: seq<string>)
    ensures ClassHide(def).Some? ==> ClassListed(ClassHide(def).value, true) &&
                                     !ClassListed(ClassHide(def).value, false)
    ensures ClassShow(def).Some? ==> ClassListed(ClassShow(def).value, false) &&
                                     !ClassListed(ClassShow(def).value, true)
  {
    if ClassHide(def).Some? {
      ClassListedSplits(ClassHide(def).value);
    }
    if ClassShow(def).Some? {
      ClassListedSplits(ClassShow(def).value);
    }
  }

  // ---------------------------------------------------------------------
  // Adding an option
  // ---------------------------------------------------------------------

  /** One option of a widget; synonyms have no class and name their
   *  target in `dbname`. */
  datatype WidgetOption = WidgetOption(option: string, dbname: string, dbclass: Option<string>,
                                       defvalue: Option<string>, flags: string, flagbits: FlagBits,
                                       value: Option<string>)

  /** What adding an option learns from outside the table: whether the
   *  widget has a window, the option database and system default, whether
   *  the option array variable can be written, and the result of the
   *  -option method (its success and the value it leaves in the array). */
  datatype AddEnv = AddEnv(hasWindow: bool, dbValue: Option<string>, sysDefault: Option<string>,
                           setVarOk: bool, initOk: bool, initValue: string)

  /** What setting an option learns from its -option method: whether it
   *  succeeds, and the value it leaves in the option array. */
  datatype SetEnv = SetEnv(methodOk: bool, stored: string)

  /** The checks made before the table is touched: a leading '-', a
   *  synonym target of '-' and at least one more character, and well
   *  formed flags.  The result holds the parsed flag bits. */
  function AddChecks(option: string, dbname: string, dbclass: Option<string>, flags: Option<string>)
    : (r: Option<FlagBits>)
    ensures r.None? <==> At(option, 0) != '-' ||
                         (dbclass.None? && (At(dbname, 0) != '-' || At(dbname, 1) == '\0')) ||
                         (flags.Some? && !WellFormedFlags(flags.value))
    ensures r.Some? ==> !r.value.nullValue && !r.value.user
    ensures r.Some? && flags.Some? ==> r.value.readonly == Names(flags.value, 'r') &&
                                       r.value.hidden == Names(flags.value, 'h')
    ensures r.Some? && flags.None? ==> r.value == NoFlags
  {
    if At(option, 0) != '-' then None
    else if dbclass.None? && (At(dbname, 0) != '-' || At(dbname, 1) == '\0') then None
    else if flags.Some? then FlagsObj(flags.value, NoFlags)
    else Some(NoFlags)
  }

  /** The value the option database supplies, looked up only when the
   *  widget has a window and not both names are empty; the system
   *  default is not consulted for -class. */
  function DatabaseValue(searchdb: nat, isClass: bool, env: AddEnv): Option<string>
  {
    if searchdb < 2 && env.hasWindow then
      if env.dbValue.Some? then env.dbValue
      else if !isClass then env.sysDefault
      else None
    else None
  }

  /** The initial value of a normal option and whether it counts as user
   *  supplied. */
  function InitialValue(value: Option<string>, defvalue: Option<string>, fromDb: Option<string>)
    : (r: (string, bool))
    ensures value.Some? ==> r == (value.value, true)
    ensures value.None? && fromDb.Some? ==> r == (fromDb.value, false)
    ensures value.None? && fromDb.None? && defvalue.Some? ==> r == (defvalue.value, true)
    ensures value.None? && fromDb.None? && defvalue.None? ==> r.0 == ""
    ensures r.1 <==> value.Some? || fromDb.None?
  {
    if value.Some? then (value.value, true)
    else if fromDb.Some? then (fromDb.value, false)
    else if defvalue.Some? then (defvalue.value, true)
    else ("", true)
  }

  /** How many of the database name and class are empty; with both empty
   *  the option database is not searched. */
  function SearchDb(dbname: string, dbclass: string): nat
  {
    (if At(dbname, 0) == '\0' then 1 else 0) + (if At(dbclass, 0) == '\0' then 1 else 0)
  }

  /** The initial value step of adding a normal option, in the order the
   *  sources are tried. */
  method InitialStep(option: string, dbname: string, dbclass: string, defvalue: Option<string>,
                     value: Option<string>, env: AddEnv) returns (v: string, user: bool)
    ensures (v, user) == InitialValue(value, defvalue, DatabaseValue(SearchDb(dbname, dbclass), option == "-class", env))
  {
    var searchdb: nat := if At(dbname, 0) == '\0' then 1 else 0;
    if At(dbclass, 0) == '\0' {
      searchdb := searchdb + 1;
    }
    var found: Option<string> := None;
    user := false;
    if value.Some? {
      found := value;
      user := true;
    } else {
      if searchdb < 2 && env.hasWindow {
        found := env.dbValue;
        if found.None? && option != "-class" {
          found := env.sysDefault;
        }
      }
      if found.None? {
        found := defvalue;
        user := true;
      }
    }
    v := if found.Some? then found.value else "";
  }

  /** Whether adding calls the -option method: for readonly options and
   *  for options added to an existing widget, never for a wrapped one. */
  predicate CallsInit(readonly: bool, initmode: nat)
  {
    (readonly || initmode == 0) && initmode != 2
  }

  /** The record a successful add stores. */
  function AddedOption(option: string, dbname: string, dbclass: Option<string>, defvalue: Option<string>,
                       flags: Option<string>, value: Option<string>, initmode: nat, env: AddEnv,
                       bits: FlagBits): (o: WidgetOption)
    ensures o.option == option && o.dbname == dbname && o.dbclass == dbclass
    ensures o.flags == (if flags.Some? then flags.value else "")
    ensures dbclass.None? ==> o.value == value && o.defvalue.None? && o.flagbits == bits.(readonly := false)
    ensures dbclass.Some? ==> o.value.Some? && o.defvalue == defvalue
    ensures dbclass.Some? ==> o.flagbits.readonly == bits.readonly
    ensures o.flagbits.hidden == bits.hidden
  {
    var fl := if flags.Some? then flags.value else "";
    var intFlags := bits.(readonly := false);
    if dbclass.None? then WidgetOption(option, dbname, None, None, fl, intFlags, value)
    else
      var initial := InitialValue(value, defvalue, DatabaseValue(SearchDb(dbname, dbclass.value), option == "-class", env));
      var v := initial.0;
      var user := initial.1;
      var readonly := bits.readonly;
      var v' := if CallsInit(readonly, initmode) then env.initValue else v;
      var b := intFlags.(user := user || intFlags.user, readonly := readonly);
      WidgetOption(option, dbname, dbclass, defvalue, fl, b, Some(v'))
  }

  /** The record of a non-synonym option being added, computed step by
   *  step: the initial value, the write of the option array (`arr`, None
   *  when that write fails), the init method when it runs, and the flags
   *  put back. */
  method NormalEntry(option: string, dbname: string, dbclass: string, defvalue: Option<string>,
                     flags: Option<string>, value: Option<string>, bits: FlagBits, initmode: nat, env: AddEnv)
    returns (ok: bool, o: WidgetOption, arr: Option<string>)
    ensures ok <==> env.setVarOk && (CallsInit(bits.readonly, initmode) ==> env.initOk)
    ensures arr.Some? <==> env.setVarOk
    ensures ok ==> o == AddedOption(option, dbname, Some(dbclass), defvalue, flags, value, initmode, env, bits)
    ensures ok ==> arr == o.value
    ensures !ok && arr.Some? ==>
              arr.value == InitialValue(value, defvalue, DatabaseValue(SearchDb(dbname, dbclass), option == "-class", env)).0
  {
    var fl := if flags.Some? then flags.value else "";
    var intFlags := bits.(readonly := false);
    var v, user := InitialStep(option, dbname, dbclass, defvalue, value, env);
    var b := if user then intFlags.(user := true) else intFlags;
    o := WidgetOption(option, dbname, Some(dbclass), defvalue, fl, b, Some(v));
    if !env.setVarOk {
      return false, o, None;
    }
    arr := Some(v);
    if CallsInit(bits.readonly, initmode) {
      if !env.initOk {
        return false, o, arr;
      }
      v := env.initValue;
      arr := Some(v);
    }
    if bits.readonly {
      b := b.(readonly := true);
    }
    o := WidgetOption(option, dbname, Some(dbclass), defvalue, fl, b, Some(v));
    ok := true;
  }

  /** How a name resolves for reading and writing. */
  datatype Lookup = Resolved(target: string) | UnknownOption | HiddenOption
                  | UnknownSynonym | SynonymIsSynonym

  predicate IsHidden(o: WidgetOption)
  {
    o.flagbits.hidden
  }

  /** Looking a name up: unknown and hidden names fail; a synonym is
   *  followed exactly one level. */
  function Resolve(options: map<string, WidgetOption>, name: string): (r: Lookup)
    ensures r.Resolved? ==> r.target in options && options[r.target].dbclass.Some?
    ensures r.Resolved? <==> name in options && !IsHidden(options[name]) &&
                             (options[name].dbclass.Some? ||
                              (options[name].dbname in options && options[options[name].dbname].dbclass.Some?))
    ensures r.Resolved? && options[name].dbclass.Some? ==> r.target == name
    ensures r.Resolved? && options[name].dbclass.None? ==> r.target == options[name].dbname
    ensures r == UnknownOption <==> name !in options
    ensures r == HiddenOption <==> name in options && IsHidden(options[name])
  {
    if name !in options then UnknownOption
    else if IsHidden(options[name]) then HiddenOption
    else if options[name].dbclass.Some? then Resolved(name)
    else
      var t := options[name].dbname;
      if t !in options then UnknownSynonym
      else if options[t].dbclass.None? then SynonymIsSynonym
      else Resolved(t)
  }

  /** A synonym of a synonym never resolves, whatever its target says. */
  lemma SynonymOfSynonymFails(options: map<string, WidgetOption>, name: string)
    requires name in options && !IsHidden(options[name]) && options[name].dbclass.None?
    requires options[name].dbname in options && options[options[name].dbname].dbclass.None?
    ensures Resolve(options, name) == SynonymIsSynonym
  {
  }

  // ---------------------------------------------------------------------
  // Hiding and listing
  // ---------------------------------------------------------------------

  /** The table with the hidden bit of each listed option set or cleared. */
  function WithHide(options: map<string, WidgetOption>, names: seq<string>, setBit: bool)
    : (r: map<string, WidgetOption>)
    requires forall j :: 0 <= j < |names| ==> names[j] in options
    ensures r.Keys == options.Keys
  {
    if |names| == 0 then options
    else
      var m := WithHide(options, names[..|names| - 1], setBit);
      var n := names[|names| - 1];
      var o := m[n];
      m[n := o.(flagbits := o.flagbits.(hidden := setBit))]
  }
  /** One more name sets the bit of that option in the result so far. */
  lemma WithHideStep(options: map<string, WidgetOption>, names: seq<string>, k: nat, setBit: bool)
    requires k < |names| && names[k] in options
    requires forall j :: 0 <= j < k ==> names[j] in options
    ensures forall j :: 0 <= j < k + 1 ==> names[j] in options
    ensures var m := WithHide(options, names[..k], setBit);
      WithHide(options, names[..k + 1], setBit) ==
        m[names[k] := m[names[k]].(flagbits := m[names[k]].flagbits.(hidden := setBit))]
  {
    assert names[..k + 1][..k] == names[..k];
  }


  /** A listed option ends with the hidden bit as asked; an unlisted one
   *  keeps its record; nothing but the hidden bit moves. */
  lemma {:induction false} WithHideAt(options: map<string, WidgetOption>, names: seq<string>, setBit: bool,
                                      k: string)
    requires forall j :: 0 <= j < |names| ==> names[j] in options
    requires k in options
    ensures k in names ==> IsHidden(WithHide(options, names, setBit)[k]) == setBit
    ensures k !in names ==> WithHide(options, names, setBit)[k] == options[k]
    ensures WithHide(options, names, setBit)[k] ==
              options[k].(flagbits := options[k].flagbits.(hidden := WithHide(options, names, setBit)[k].flagbits.hidden))
  {
    if |names| > 0 {
      var front := names[..|names| - 1];
      WithHideAt(options, front, setBit, k);
      if k != names[|names| - 1] {
        if k in names {
          var j :| 0 <= j < |names| && names[j] == k;
          assert front[j] == k;
        }
      }
    }
  }

  /** The names of `order` whose hidden bit is `hidden`, in that order. */
  function WithHidden(order: seq<string>, options: map<string, WidgetOption>, hidden: bool): (r: seq<string>)
    requires forall j :: 0 <= j < |order| ==> order[j] in options
    ensures forall j :: 0 <= j < |r| ==> r[j] in options && IsHidden(options[r[j]]) == hidden
  {
    if |order| == 0 then []
    else
      var rest := WithHidden(order[..|order| - 1], options, hidden);
      var n := order[|order| - 1];
      if IsHidden(options[n]) == hidden then rest + [n] else rest
  }

  /** A name is listed exactly when it is in `order` with the asked bit. */
  lemma {:induction false} WithHiddenMembers(order: seq<string>, options: map<string, WidgetOption>, hidden: bool)
    requires forall j :: 0 <= j < |order| ==> order[j] in options
    ensures forall n :: n in WithHidden(order, options, hidden) <==>
                        n in order && IsHidden(options[n]) == hidden
  {
    if |order| > 0 {
      var front := order[..|order| - 1];
      WithHiddenMembers(front, options, hidden);
      forall n | n in order && n != order[|order| - 1]
        ensures n in front
      {
        var j :| 0 <= j < |order| && order[j] == n;
        assert front[j] == n;
      }
    }
  }

  /** No name occurs twice, as in the iteration of a hash table. */
  predicate Distinct(s: seq<string>)
  {
    forall i, j :: 0 <= i < j < |s| ==> s[i] != s[j]
  }

  /** Selecting from a duplicate-free order selects no name twice. */
  lemma {:induction false} WithHiddenDistinct(order: seq<string>, options: map<string, WidgetOption>, hidden: bool)
    requires forall j :: 0 <= j < |order| ==> order[j] in options
    requires Distinct(order)
    ensures Distinct(WithHidden(order, options, hidden))
  {
    if |order| > 0 {
      var front := order[..|order| - 1];
      WithHiddenDistinct(front, options, hidden);
      WithHiddenMembers(front, options, hidden);
      var last := order[|order| - 1];
      assert last !in front by {
        forall j | 0 <= j < |front|
          ensures front[j] != last
        {
          assert front[j] == order[j];
        }
      }
    }
  }

  /** The `configure` listing of a table whose entries carry their own
   *  names: every entry names a shown option, every shown option has an
   *  entry, and no name comes twice. */
  lemma ListingFacts(options: map<string, WidgetOption>, order: seq<string>, entries: seq<seq<string>>)
    requires forall k :: k in options ==> options[k].option == k
    requires forall j :: 0 <= j < |order| ==> order[j] in options
    requires forall k :: k in options ==> k in order
    requires Distinct(order)
    requires |entries| == |WithHidden(order, options, false)|
    requires forall j :: 0 <= j < |entries| ==>
               entries[j] == Describe(options[WithHidden(order, options, false)[j]])
    ensures forall j :: 0 <= j < |entries| ==>
              |entries[j]| >= 2 && entries[j][0] in options && !IsHidden(options[entries[j][0]])
    ensures forall k :: k in options && !IsHidden(options[k]) ==>
              exists j :: 0 <= j < |entries| && entries[j][0] == k
    ensures forall i, j :: 0 <= i < j < |entries| ==> entries[i][0] != entries[j][0]
  {
    var visible := WithHidden(order, options, false);
    WithHiddenMembers(order, options, false);
    WithHiddenDistinct(order, options, false);
    forall j | 0 <= j < |entries|
      ensures entries[j][0] == visible[j] && !IsHidden(options[visible[j]])
    {
      assert visible[j] in visible;
    }
    forall k | k in options && !IsHidden(options[k])
      ensures exists j :: 0 <= j < |entries| && entries[j][0] == k
    {
      var j :| 0 <= j < |visible| && visible[j] == k;
      assert entries[j][0] == k;
    }
  }

  /** One entry of the configure listing: name and database name, and for
   *  normal options class, default and value. */
  function Describe(o: WidgetOption): (r: seq<string>)
    ensures |r| == (if o.dbclass.Some? then 5 else 2) && r[0] == o.option
  {
    [o.option, o.dbname] +
    (if o.dbclass.Some? then [o.dbclass.value, if o.defvalue.Some? then o.defvalue.value else "",
                              if o.value.Some? then o.value.value else ""]
     else [])
  }

  /** The option table of one widget and its option array variable. */
  class Widget {
    var options: map<string, WidgetOption>
    var optionsArray: map<string, string>

    /** Every entry is filed under its own name, and every normal option
     *  has a value. */
    predicate Valid()
      reads this
    {
      forall k :: k in options ==> options[k].option == k && (options[k].dbclass.Some? ==> options[k].value.Some?)
    }

    constructor ()
      ensures Valid() && options == map[] && optionsArray == map[]
    {
      options := map[];
      optionsArray := map[];
    }

    /** Adds an option.  A failed check or an existing name changes
     *  nothing; a failure of the array variable or of the -option method
     *  removes the new entry again. */
    method OptionAdd(option: string, dbname: string, dbclass: Option<string>, defvalue: Option<string>,
                     flags: Option<string>, value: Option<string>, initmode: nat, env: AddEnv)
      returns (ok: bool)
      requires Valid()
      modifies this
      ensures Valid()
      ensures AddChecks(option, dbname, dbclass, flags).None? || option in old(options) ==>
                !ok && options == old(options) && optionsArray == old(optionsArray)
      ensures ok <==> AddChecks(option, dbname, dbclass, flags).Some? && option !in old(options) &&
                      (dbclass.None? ||
                       (env.setVarOk &&
                        (CallsInit(AddChecks(option, dbname, dbclass, flags).value.readonly, initmode) ==> env.initOk)))
      ensures ok ==> options == old(options)[option := AddedOption(option, dbname, dbclass, defvalue, flags,
                                                                  value, initmode, env,
                                                                  AddChecks(option, dbname, dbclass, flags).value)]
      ensures !ok ==> options == old(options)
      ensures ok && dbclass.Some? ==> optionsArray == old(optionsArray)[option := options[option].value.value]
      ensures dbclass.None? || !env.setVarOk ==> optionsArray == old(optionsArray)
      ensures !ok && AddChecks(option, dbname, dbclass, flags).Some? && option !in old(options) && dbclass.Some? &&
              env.setVarOk ==>
                optionsArray == old(optionsArray)[option := InitialValue(value, defvalue,
                                  DatabaseValue(SearchDb(dbname, dbclass.value), option == "-class", env)).0]
    {
      var bits := AddChecks(option, dbname, dbclass, flags);
      if bits.None? || option in options {
        return false;
      }
      if dbclass.None? {
        var fl := if flags.Some? then flags.value else "";
        options := options[option := WidgetOption(option, dbname, None, None, fl, bits.value.(readonly := false), value)];
        return true;
      }
      var o, arr;
      ok, o, arr := NormalEntry(option, dbname, dbclass.value, defvalue, flags, value, bits.value, initmode, env);
      if arr.Some? {
        optionsArray := optionsArray[option := arr.value];
      }
      if ok {
        options := options[option := o];
      }
    }

    /** The current value of an option, following a synonym one level;
     *  None for a missing name, an unknown or hidden option and a broken
     *  synonym. */
    method OptionGet(name: Option<string>) returns (r: Option<string>)
      requires Valid()
      ensures r.Some? <==> name.Some? && Resolve(options, name.value).Resolved?
      ensures r.Some? ==> r == options[Resolve(options, name.value).target].value
    {
      if name.None? {
        return None;
      }
      var n := name.value;
      if n !in options {
        return None;
      }
      var o := options[n];
      if o.flagbits.hidden {
        return None;
      }
      if o.dbclass.None? {
        if o.dbname !in options {
          return None;
        }
        o := options[o.dbname];
        if o.dbclass.None? {
          return None;
        }
      }
      r := o.value;
    }

    /**
     * Writes the option array entry of the resolved option. The write
     * trace refuses a readonly option, leaving the written value in the
     * array; otherwise it calls the -option method. When that fails the
     * trace puts the option's stored value back into the array; when it
     * succeeds the value the method left in the array becomes the
     * option's value, and the option is marked user supplied.
     */
    method OptionSet(name: Option<string>, value: Option<string>, env: SetEnv) returns (ok: bool)
      requires Valid()
      modifies this
      ensures Valid()
      ensures ok <==> name.Some? && value.Some? && Resolve(old(options), name.value).Resolved? &&
                      !old(options)[Resolve(old(options), name.value).target].flagbits.readonly && env.methodOk
      ensures !(name.Some? && value.Some? && Resolve(old(options), name.value).Resolved?) ==>
                options == old(options) && optionsArray == old(optionsArray)
      ensures name.Some? && value.Some? && Resolve(old(options), name.value).Resolved? ==>
                var t := Resolve(old(options), name.value).target;
                var o := old(options)[t];
                && (o.flagbits.readonly ==>
                      options == old(options) && optionsArray == old(optionsArray)[t := value.value])
                && (!o.flagbits.readonly && !env.methodOk ==>
                      options == old(options) && optionsArray == old(optionsArray)[t := o.value.value])
                && (ok ==>
                      options == old(options)[t := o.(value := Some(env.stored),
                                                      flagbits := o.flagbits.(user := true))] &&
                      optionsArray == old(optionsArray)[t := env.stored])
    {
      if name.None? || value.None? {
        return false;
      }
      var n := name.value;
      if n !in options {
        return false;
      }
      var o := options[n];
      if o.flagbits.hidden {
        return false;
      }
      var t := n;
      if o.dbclass.None? {
        t := o.dbname;
        if t !in options {
          return false;
        }
        o := options[t];
        if o.dbclass.None? {
          return false;
        }
      }
      optionsArray := optionsArray[o.option := value.value];
      if o.flagbits.readonly {
        return false;
      }
      if !env.methodOk {
        optionsArray := optionsArray[o.option := o.value.value];
        return false;
      }
      optionsArray := optionsArray[o.option := env.stored];
      options := options[t := o.(value := Some(env.stored), flagbits := o.flagbits.(user := true))];
      ok := true;
    }

    /** `optionhide` / `optionshow` with names: sets or clears the hidden
     *  bit of each name in order and stops at the first unknown one;
     *  changes made before it stay. */
    method SetHidden(names: seq<string>, setBit: bool) returns (ok: bool, done: nat)
      requires Valid()
      modifies this
      ensures Valid() && optionsArray == old(optionsArray)
      ensures done <= |names| && (ok <==> done == |names|)
      ensures forall j :: 0 <= j < done ==> names[j] in old(options)
      ensures !ok ==> names[done] !in old(options)
      ensures options == WithHide(old(options), names[..done], setBit)
    {
      done := 0;
      while done < |names|
        invariant done <= |names| && Valid() && optionsArray == old(optionsArray)
        invariant forall j :: 0 <= j < done ==> names[j] in old(options)
        invariant options == WithHide(old(options), names[..done], setBit)
      {
        if names[done] !in options {
          return false, done;
        }
        WithHideStep(old(options), names, done, setBit);
        SetHiddenBit(names[done], setBit);
        done := done + 1;
      }
      ok := true;
    }

    /** One step of `optionhide` / `optionshow`: the hidden bit of one
     *  known option. */
    method SetHiddenBit(name: string, setBit: bool)
      requires Valid() && name in options
      modifies this
      ensures Valid() && optionsArray == old(optionsArray)
      ensures options == old(options)[name := old(options)[name].(flagbits := old(options)[name].flagbits.(hidden := setBit))]
    {
      var o := options[name];
      options := options[name := o.(flagbits := o.flagbits.(hidden := setBit))];
    }

    /** `optionhide` / `optionshow` without names: the visible or the
     *  hidden options, in the table's iteration order `order`. */
    method ListHidden(order: seq<string>, hidden: bool) returns (list: seq<string>)
      requires forall j :: 0 <= j < |order| ==> order[j] in options
      requires forall k :: k in options ==> k in order
      requires Distinct(order)
      ensures list == WithHidden(order, options, hidden)
      ensures forall n :: n in list <==> n in options && IsHidden(options[n]) == hidden
      ensures Distinct(list)
    {
      list := [];
      for e := 0 to |order|
        invariant list == WithHidden(order[..e], options, hidden)
      {
        assert order[..e + 1][..e] == order[..e];
        var o := options[order[e]];
        if o.flagbits.hidden == hidden {
          list := list + [order[e]];
        }
      }
      assert order[..|order|] == order;
      WithHiddenMembers(order, options, hidden);
      WithHiddenDistinct(order, options, hidden);
    }

    /** `configure` without arguments: one entry per visible option, before
     *  the listing is sorted. */
    method ConfigureList(order: seq<string>) returns (entries: seq<seq<string>>)
      requires Valid()
      requires forall j :: 0 <= j < |order| ==> order[j] in options
      requires forall k :: k in options ==> k in order
      requires Distinct(order)
      ensures |entries| == |WithHidden(order, options, false)|
      ensures forall j :: 0 <= j < |entries| ==>
                entries[j] == Describe(options[WithHidden(order, options, false)[j]])
      ensures forall j :: 0 <= j < |entries| ==>
                |entries[j]| >= 2 && entries[j][0] in options && !IsHidden(options[entries[j][0]])
      ensures forall k :: k in options && !IsHidden(options[k]) ==>
                exists j :: 0 <= j < |entries| && entries[j][0] == k
      ensures forall i, j :: 0 <= i < j < |entries| ==> entries[i][0] != entries[j][0]
    {
      entries := [];
      ghost var visible: seq<string> := [];
      for e := 0 to |order|
        invariant visible == WithHidden(order[..e], options, false)
        invariant |entries| == |visible|
        invariant forall j :: 0 <= j < |entries| ==> entries[j] == Describe(options[visible[j]])
      {
        assert order[..e + 1][..e] == order[..e];
        var o := options[order[e]];
        if o.flagbits.hidden {
          continue;
        }
        entries := entries + [Describe(o)];
        visible := visible + [order[e]];
      }
      assert order[..|order|] == order;
      ListingFacts(options, order, entries);
    }
  }
}
