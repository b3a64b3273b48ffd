/**
 * File types on macOS: four-character OSType codes packed into 32-bit
 * words, the table from OSType to Uniform Type Identifier built once from
 * a fixed database, and the order in which a file type string is tried
 * when an icon is looked up. The uniform type system itself is represented
 * by two maps, from identifiers and from filename extensions to types.
 */
module MacFileTypes {

  import opened Wrappers

  // ---------------------------------------------------------------------
  // CHARS_TO_OSTYPE.

  /** Four bytes packed big-endian: c0 << 24 | c1 << 16 | c2 << 8 | c3. */
  function CharsToOSType(s: seq<bv8>): bv32
    requires |s| >= 4
  {
    Pack(s[0], s[1], s[2], s[3])
  }

  function Pack(c0: bv8, c1: bv8, c2: bv8, c3: bv8): bv32
  {
    (c0 as bv32 << 24) | (c1 as bv32 << 16) | (c2 as bv32 << 8) | c3 as bv32
  }

  /** Byte k (0 the most significant) of a code. */
  function CodeByte(code: bv32, k: nat): bv8
    requires k < 4
  {
    var shifted := if k == 0 then code >> 24 else if k == 1 then code >> 16
      else if k == 2 then code >> 8 else code;
    (shifted & 0xff) as bv8
  }

  /** The four bytes of a code, most significant first. */
  function OSTypeChars(code: bv32): (s: seq<bv8>)
    ensures |s| == 4
  {
    [CodeByte(code, 0), CodeByte(code, 1), CodeByte(code, 2), CodeByte(code, 3)]
  }

  lemma PackBytes(c0: bv8, c1: bv8, c2: bv8, c3: bv8)
    ensures var code := Pack(c0, c1, c2, c3);
      CodeByte(code, 0) == c0 && CodeByte(code, 1) == c1 && CodeByte(code, 2) == c2 && CodeByte(code, 3) == c3
  {
  }

  /** Packing and unpacking are inverse: the code of four bytes gives them back. */
  lemma OSTypeCharsOfCode(s: seq<bv8>)
    requires |s| >= 4
    ensures OSTypeChars(CharsToOSType(s)) == s[..4]
  {
    PackBytes(s[0], s[1], s[2], s[3]);
  }

  lemma CodeOfOSTypeChars(code: bv32)
    ensures CharsToOSType(OSTypeChars(code)) == code
  {
  }

  /** Two strings have the same code exactly when their first four bytes agree. */
  lemma CharsToOSTypeInjective(s: seq<bv8>, t: seq<bv8>)
    requires |s| >= 4 && |t| >= 4
    ensures CharsToOSType(s) == CharsToOSType(t) <==> s[..4] == t[..4]
  {
    PackInjective(s[0], s[1], s[2], s[3], t[0], t[1], t[2], t[3]);
    assert s[..4] == [s[0], s[1], s[2], s[3]] && t[..4] == [t[0], t[1], t[2], t[3]];
  }

  lemma PackInjective(c0: bv8, c1: bv8, c2: bv8, c3: bv8, d0: bv8, d1: bv8, d2: bv8, d3: bv8)
    ensures Pack(c0, c1, c2, c3) == Pack(d0, d1, d2, d3) <==> c0 == d0 && c1 == d1 && c2 == d2 && c3 == d3
  {
    PackBytes(c0, c1, c2, c3);
    PackBytes(d0, d1, d2, d3);
  }

  /** A signed char converted to the unsigned 32-bit OSType: bytes from 0x80 up are sign-extended. */
  function SignExtend(b: bv8): bv32
  {
    if b >= 0x80 then 0xffff_ff00 | b as bv32 else b as bv32
  }

  /** CHARS_TO_OSTYPE as written, on a platform whose char is signed. */
  function CharsToOSTypeAsWritten(s: seq<bv8>): bv32
    requires |s| >= 4
  {
    (SignExtend(s[0]) << 24) | (SignExtend(s[1]) << 16) | (SignExtend(s[2]) << 8) | SignExtend(s[3])
  }

  /** On ASCII bytes the written macro and the packing agree. */
  lemma AsWrittenAgreesOnAscii(s: seq<bv8>)
    requires |s| >= 4 && s[0] < 0x80 && s[1] < 0x80 && s[2] < 0x80 && s[3] < 0x80
    ensures CharsToOSTypeAsWritten(s) == CharsToOSType(s)
  {
  }

  /** A byte 0x80 in position 1 sets the whole top byte, so "\x00\x80\x00\x00" and "\xff\x80\x00\x00" collide. */
  lemma AsWrittenCollides()
    ensures CharsToOSTypeAsWritten([0x00, 0x80, 0x00, 0x00]) == CharsToOSTypeAsWritten([0xff, 0x80, 0x00, 0x00])
    ensures CharsToOSType([0x00, 0x80, 0x00, 0x00]) != CharsToOSType([0xff, 0x80, 0x00, 0x00])
  {
  }

  // ---------------------------------------------------------------------
  // The OSType table.

  /** An entry of the OSType database: a four-character code and its identifier. */
  datatype IdentifierForOSType = IdentifierForOSType(ostype: seq<bv8>, identifier: seq<bv8>)

  predicate WellFormed(db: seq<IdentifierForOSType>)
  {
    forall i :: 0 <= i < |db| ==> |db[i].ostype| >= 4
  }

  /** A code as a hash key. */
  datatype OSKey = OSKey(code: bv32)

  function Code(e: IdentifierForOSType): OSKey
    requires |e.ostype| >= 4
  {
    OSKey(CharsToOSType(e.ostype))
  }

  /** Entry i is the first entry of the database with this code. */
  predicate FirstWith(db: seq<IdentifierForOSType>, code: OSKey, i: nat)
    requires WellFormed(db)
  {
    i < |db| && Code(db[i]) == code && forall j :: 0 <= j < i ==> Code(db[j]) != code
  }

  /** The table after the first n entries have been inserted, an entry never replacing an earlier one. */
  function Built(db: seq<IdentifierForOSType>, n: nat): map<OSKey, seq<bv8>>
    requires WellFormed(db) && n <= |db|
  {
    if n == 0 then map[]
    else
      var t := Built(db, n - 1);
      if Code(db[n - 1]) in t then t else t[Code(db[n - 1]) := db[n - 1].identifier]
  }

  /** A code is in the table exactly when some entry has it, and it maps to the first such entry's identifier. */
  lemma {:induction false} BuiltFirstWins(db: seq<IdentifierForOSType>, n: nat, code: OSKey)
    requires WellFormed(db) && n <= |db|
    ensures code in Built(db, n) <==> exists i :: 0 <= i < n && Code(db[i]) == code
    ensures forall i: nat :: i < n && FirstWith(db, code, i) ==> Built(db, n)[code] == db[i].identifier
  {
    if n > 0 {
      BuiltFirstWins(db, n - 1, code);
      var t := Built(db, n - 1);
      var k := Code(db[n - 1]);
      var id := db[n - 1].identifier;
      if k in t {
        assert Built(db, n) == t;
      } else {
        assert Built(db, n) == t[k := id];
      }
      if code in t {
        forall i: nat | i < n && FirstWith(db, code, i)
          ensures i < n - 1
        {
          var j :| 0 <= j < n - 1 && Code(db[j]) == code;
          assert j >= i;
        }
      } else if k == code {
        assert Built(db, n)[code] == id;
        forall i: nat | i < n - 1
          ensures Code(db[i]) != code
        {
        }
      } else {
        forall i | 0 <= i < n
          ensures Code(db[i]) != code
        {
        }
      }
    }
  }

  /** Every code carried by the database has a first entry. */
  lemma FirstExists(db: seq<IdentifierForOSType>, code: OSKey, k: nat)
    requires WellFormed(db) && k < |db| && Code(db[k]) == code
    ensures exists i :: FirstWith(db, code, i)
    decreases k
  {
    if exists j :: 0 <= j < k && Code(db[j]) == code {
      var j :| 0 <= j < k && Code(db[j]) == code;
      FirstExists(db, code, j);
    } else {
      assert FirstWith(db, code, k);
    }
  }

  /** The table lazily built from the OSType database, and whether it has been built. */
  class OSTypeTable {
    const db: seq<IdentifierForOSType>
    var initialized: bool
    var table: map<OSKey, seq<bv8>>

    predicate Valid()
      reads this
    {
      WellFormed(db) && (initialized ==> table == Built(db, |db|))
    }

    constructor (db: seq<IdentifierForOSType>)
      requires WellFormed(db)
      ensures Valid() && this.db == db && !initialized
    {
      this.db := db;
      initialized := false;
      table := map[];
    }

    /** initOSTypeTable: inserts the entries in order, keeping the first of each code. */
    method Init()
      requires Valid()
      modifies this
      ensures Valid() && initialized
    {
      table := map[];
      var i := 0;
      while i < |db|
        invariant i <= |db| && table == Built(db, i)
      {
        var key := Code(db[i]);
        if key !in table {
          table := table[key := db[i].identifier];
        }
        i := i + 1;
      }
      initialized := true;
    }

    /**
     * TkMacOSXOSTypeToUTI: builds the table on first use; the identifier of
     * the first database entry with this code, nil when none has it.
     */
    method OSTypeToUTI(ostype: bv32) returns (uti: Option<seq<bv8>>)
      requires Valid()
      modifies this
      ensures Valid() && initialized
      ensures uti == FirstIdentifier(db, OSKey(ostype))
      ensures uti.None? <==> forall i :: 0 <= i < |db| ==> Code(db[i]).code != ostype
      ensures forall i: nat :: FirstWith(db, OSKey(ostype), i) ==> uti == Some(db[i].identifier)
    {
      if !initialized {
        Init();
      }
      BuiltIsFirstIdentifier(db, OSKey(ostype));
      forall i: nat | FirstWith(db, OSKey(ostype), i)
        ensures FirstIdentifier(db, OSKey(ostype)) == Some(db[i].identifier)
      {
        FirstIdentifierIsFirst(db, OSKey(ostype), i);
      }
      if OSKey(ostype) in table {
        uti := Some(table[OSKey(ostype)]);
      } else {
        uti := None;
      }
    }

    /** TkMacOSXIconForFileType: the type whose icon is returned, nil when none is declared. */
    method IconForFileType(reg: Registry, filetype: seq<bv8>) returns (icon: Option<UTType>)
      requires Valid()
      modifies this
      ensures Valid() && initialized
      ensures icon == IconType(reg, db, filetype)
    {
      if !initialized {
        Init();
      }
      var uttype := reg.TypeWithIdentifier(filetype);
      if uttype.None? || !uttype.value.declared {
        uttype := reg.TypeWithFilenameExtension(filetype);
      }
      if OSTypeStepTaken(uttype, filetype) {
        var uti := OSTypeToUTI(CharsToOSType(CString(filetype)));
        if uti.Some? {
          uttype := reg.TypeWithIdentifier(uti.value);
        }
      }
      if uttype.None? || !uttype.value.declared {
        icon := None;
      } else {
        icon := uttype;
      }
    }
  }

  // ---------------------------------------------------------------------
  // The icon lookup order.

  /** A uniform type: its identifier and whether the system declares it. */
  datatype UTType = UTType(identifier: seq<bv8>, declared: bool)

  /** The types the system knows, by identifier and by filename extension. */
  datatype Registry = Registry(byIdentifier: map<seq<bv8>, UTType>, byExtension: map<seq<bv8>, UTType>)
  {
    function TypeWithIdentifier(s: seq<bv8>): Option<UTType>
    {
      if s in byIdentifier then Some(byIdentifier[s]) else None
    }

    function TypeWithFilenameExtension(s: seq<bv8>): Option<UTType>
    {
      if s in byExtension then Some(byExtension[s]) else None
    }
  }

  predicate Declared(t: Option<UTType>)
  {
    t.Some? && t.value.declared
  }

  /** The bytes of the string as C sees them: its UTF-8 form and the terminating NUL. */
  function CString(filetype: seq<bv8>): (c: seq<bv8>)
    ensures |c| == |filetype| + 1 && c[..|filetype|] == filetype && c[|filetype|] == 0
  {
    filetype + [0]
  }

  /**
   * The test before the OSType step, restricted to strings whose C form has
   * the four bytes the step reads: no type at all for a string of three
   * bytes or more, or an undeclared type for a four-byte string.
   */
  predicate OSTypeStepTaken(t: Option<UTType>, filetype: seq<bv8>)
  {
    OSTypeStepTakenAsWritten(t, filetype) && |filetype| >= 3
  }

  /**
   * The test written before the OSType step: no type at all, or an
   * undeclared one for a four-character string. It is also met by a
   * string shorter than three bytes that neither lookup knows, which is
   * then read four bytes deep.
   */
  predicate OSTypeStepTakenAsWritten(t: Option<UTType>, filetype: seq<bv8>)
  {
    t.None? || (!t.value.declared && |filetype| == 4)
  }

  /**
   * A string of fewer than three bytes with no type passes the written
   * test, yet its C form, terminator included, is shorter than the four
   * bytes the step reads; the empty string is one such.
   */
  lemma OSTypeStepReadsPastShortString(filetype: seq<bv8>)
    requires |filetype| < 3
    ensures OSTypeStepTakenAsWritten(None, filetype)
    ensures |CString(filetype)| < 4
    ensures !OSTypeStepTaken(None, filetype)
  {
  }

  /** From three bytes on, the written test and the corrected one agree. */
  lemma OSTypeStepAgreesFromThreeBytes(t: Option<UTType>, filetype: seq<bv8>)
    requires |filetype| >= 3
    ensures OSTypeStepTakenAsWritten(t, filetype) == OSTypeStepTaken(t, filetype)
  {
  }

  /** The identifier of the first database entry with this code. */
  function FirstIdentifier(db: seq<IdentifierForOSType>, code: OSKey): (r: Option<seq<bv8>>)
    requires WellFormed(db)
    ensures r.None? <==> forall i :: 0 <= i < |db| ==> Code(db[i]) != code
  {
    if |db| == 0 then None
    else if Code(db[0]) == code then Some(db[0].identifier)
    else
      var r := FirstIdentifier(db[1..], code);
      assert forall i :: 1 <= i < |db| ==> db[1..][i - 1] == db[i];
      r
  }

  /** The type after the identifier, extension and OSType steps, before the final declared test. */
  function Candidate(reg: Registry, db: seq<IdentifierForOSType>, filetype: seq<bv8>): Option<UTType>
    requires WellFormed(db)
  {
    var byId := reg.TypeWithIdentifier(filetype);
    var t := if Declared(byId) then byId else reg.TypeWithFilenameExtension(filetype);
    if OSTypeStepTaken(t, filetype) then
      match FirstIdentifier(db, OSKey(CharsToOSType(CString(filetype))))
      case Some(uti) => reg.TypeWithIdentifier(uti)
      case None => t
    else t
  }

  function IconType(reg: Registry, db: seq<IdentifierForOSType>, filetype: seq<bv8>): (r: Option<UTType>)
    requires WellFormed(db)
    ensures r.Some? ==> r.value.declared
  {
    var t := Candidate(reg, db, filetype);
    if Declared(t) then t else None
  }

  /** Neither as an identifier nor as an extension does the string name a declared type. */
  predicate NoneDeclared(reg: Registry, filetype: seq<bv8>)
  {
    !Declared(reg.TypeWithIdentifier(filetype)) && !Declared(reg.TypeWithFilenameExtension(filetype))
  }

  /** The string as an identifier wins; then as an extension; the OSType table comes last. */
  lemma IconLookupOrder(reg: Registry, db: seq<IdentifierForOSType>, filetype: seq<bv8>)
    requires WellFormed(db)
    ensures Declared(reg.TypeWithIdentifier(filetype)) ==>
      IconType(reg, db, filetype) == reg.TypeWithIdentifier(filetype)
    ensures !Declared(reg.TypeWithIdentifier(filetype)) && Declared(reg.TypeWithFilenameExtension(filetype)) ==>
      IconType(reg, db, filetype) == reg.TypeWithFilenameExtension(filetype)
    ensures (NoneDeclared(reg, filetype)
        && (|filetype| < 3 || (reg.TypeWithFilenameExtension(filetype).Some? && |filetype| != 4))) ==>
      IconType(reg, db, filetype).None?
    ensures (NoneDeclared(reg, filetype)
        && |filetype| >= 3 && (reg.TypeWithFilenameExtension(filetype).None? || |filetype| == 4)) ==>
      IconType(reg, db, filetype)
        == match FirstIdentifier(db, OSKey(CharsToOSType(CString(filetype))))
           case Some(uti) => (if Declared(reg.TypeWithIdentifier(uti)) then reg.TypeWithIdentifier(uti) else None)
           case None => None
  {
  }

  /** The table and the first-entry search give the same identifier. */
  lemma BuiltIsFirstIdentifier(db: seq<IdentifierForOSType>, code: OSKey)
    requires WellFormed(db)
    ensures code in Built(db, |db|) <==> FirstIdentifier(db, code).Some?
    ensures code in Built(db, |db|) ==> Built(db, |db|)[code] == FirstIdentifier(db, code).value
  {
    BuiltFirstWins(db, |db|, code);
    if code in Built(db, |db|) {
      var k :| 0 <= k < |db| && Code(db[k]) == code;
      FirstExists(db, code, k);
      var i :| FirstWith(db, code, i);
      FirstIdentifierIsFirst(db, code, i);
    }
  }

  lemma {:induction false} FirstIdentifierIsFirst(db: seq<IdentifierForOSType>, code: OSKey, i: nat)
    requires WellFormed(db) && FirstWith(db, code, i)
    ensures FirstIdentifier(db, code) == Some(db[i].identifier)
  {
    if i > 0 {
      var rest := db[1..];
      assert WellFormed(rest) by {
        assert forall k :: 0 <= k < |rest| ==> rest[k] == db[k + 1];
      }
      assert FirstWith(rest, code, i - 1) by {
        assert forall k :: 0 <= k < i - 1 ==> rest[k] == db[k + 1];
        assert Code(db[0]) != code;
      }
      FirstIdentifierIsFirst(rest, code, i - 1);
    }
  }
}
