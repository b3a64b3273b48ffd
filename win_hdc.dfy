/** The registry of device contexts of the Windows printing code: a table
 *  from generated names to (address, type) records, a table of per-type
 *  name prefixes, and the operations that create, check, delete, look up
 *  and list entries.  Addresses are natural numbers, 0 standing for NULL. */
module WinHdc {
  import opened Wrappers

  /** One registered device context: its address and its type. */
  datatype HdcValue = HdcValue(addr: nat, kind: int)

  /** Prefixes are kept to at most this many characters. */
  const PrefixMax: nat := 32

  /** A name is valid for a type when it is registered and the type is
   *  not positive (any type) or equals the stored one. */
  predicate ValidIn(hdcs: map<string, HdcValue>, name: string, kind: int)
  {
    name in hdcs && (kind <= 0 || hdcs[name].kind == kind)
  }

  /** The address registered under a name, 0 when there is none. */
  function AddrIn(hdcs: map<string, HdcValue>, name: string): nat
  {
    if name in hdcs then hdcs[name].addr else 0
  }

  /** The prefix as stored: its first 32 characters. */
  function Truncated(p: string): (r: string)
    ensures |r| == if |p| > PrefixMax then PrefixMax else |p|
    ensures r == p[..|r|]
    ensures |p| <= PrefixMax ==> r == p
  {
    if |p| > PrefixMax then p[..PrefixMax] else p
  }

  /** The names of `order` whose entries match the type, in that order. */
  function Matching(order: seq<string>, hdcs: map<string, HdcValue>, kind: int): seq<string>
  {
    if |order| == 0 then []
    else
      var rest := Matching(order[..|order| - 1], hdcs, kind);
      if ValidIn(hdcs, order[|order| - 1], kind) then rest + [order[|order| - 1]] else rest
  }

  /** Every listed name is registered with a matching type. */
  lemma {:induction false} MatchingSound(order: seq<string>, hdcs: map<string, HdcValue>, kind: int)
    ensures forall j :: 0 <= j < |Matching(order, hdcs, kind)| ==>
              ValidIn(hdcs, Matching(order, hdcs, kind)[j], kind)
    ensures forall n :: n in Matching(order, hdcs, kind) ==> n in order
  {
    if |order| > 0 {
      MatchingSound(order[..|order| - 1], hdcs, kind);
    }
  }

  /** Every matching name of `order` is listed. */
  lemma {:induction false} MatchingComplete(order: seq<string>, hdcs: map<string, HdcValue>, kind: int)
    ensures forall n :: n in order && ValidIn(hdcs, n, kind) ==> n in Matching(order, hdcs, kind)
  {
    if |order| > 0 {
      MatchingComplete(order[..|order| - 1], hdcs, kind);
      forall n | n in order && ValidIn(hdcs, n, kind)
        ensures n in Matching(order, hdcs, kind)
      {
        if n != order[|order| - 1] {
          var j :| 0 <= j < |order| && order[j] == n;
          assert n in order[..|order| - 1] by {
            assert order[..|order| - 1][j] == n;
          }
        }
      }
    }
  }

  /** With no type filter, every name of `order` is listed. */
  lemma {:induction false} MatchingAll(order: seq<string>, hdcs: map<string, HdcValue>)
    requires forall n :: n in order ==> n in hdcs
    ensures Matching(order, hdcs, 0) == order
  {
    if |order| > 0 {
      MatchingAll(order[..|order| - 1], hdcs);
      assert order[..|order| - 1] + [order[|order| - 1]] == order;
    }
  }

  /** One more name of the order adds it to the listing when it matches. */
  lemma MatchingStep(order: seq<string>, hdcs: map<string, HdcValue>, kind: int, e: nat)
    requires e < |order|
    ensures Matching(order[..e + 1], hdcs, kind) ==
              Matching(order[..e], hdcs, kind) + (if ValidIn(hdcs, order[e], kind) then [order[e]] else [])
  {
    assert order[..e + 1][..e] == order[..e];
  }

  /** What a listing cut to `outlen` names holds: valid names, none twice,
   *  and all of them when they fit. */
  lemma ListedFacts(order: seq<string>, hdcs: map<string, HdcValue>, kind: int, listed: seq<string>,
                    outlen: nat)
    requires forall n :: n in order <==> n in hdcs
    requires Distinct(order)
    requires |listed| <= |Matching(order, hdcs, kind)| && listed == Matching(order, hdcs, kind)[..|listed|]
    requires |Matching(order, hdcs, kind)| <= outlen ==> |listed| == |Matching(order, hdcs, kind)|
    ensures forall j :: 0 <= j < |listed| ==> ValidIn(hdcs, listed[j], kind)
    ensures forall i, j :: 0 <= i < j < |listed| ==> listed[i] != listed[j]
    ensures |Matching(order, hdcs, kind)| <= outlen ==> forall n :: ValidIn(hdcs, n, kind) ==> n in listed
  {
    var m := Matching(order, hdcs, kind);
    MatchingSound(order, hdcs, kind);
    MatchingComplete(order, hdcs, kind);
    MatchingDistinct(order, hdcs, kind);
    forall j | 0 <= j < |listed|
      ensures ValidIn(hdcs, listed[j], kind)
    {
      assert listed[j] == m[j];
    }
    if |m| <= outlen {
      assert listed == m;
    }
  }

  /** No name occurs twice, as in the iteration of a hash table. */
  predicate Distinct(s: seq<string>)
  {
    forall i, j :: 0 <= i < j < |s| ==> s[i] != s[j]
  }

  /** Listing the names of a duplicate-free order lists none twice. */
  lemma {:induction false} MatchingDistinct(order: seq<string>, hdcs: map<string, HdcValue>, kind: int)
    requires Distinct(order)
    ensures Distinct(Matching(order, hdcs, kind))
  {
    if |order| > 0 {
      var front := order[..|order| - 1];
      MatchingDistinct(front, hdcs, kind);
      MatchingSound(front, hdcs, kind);
      var last := order[|order| - 1];
      assert last !in front by {
        forall j | 0 <= j < |front|
          ensures front[j] != last
        {
          assert front[j] == order[j];
        }
      }
    }
  }

  /** Both tables of the registry. */
  class HdcRegistry {
    var hdcs: map<string, HdcValue>
    var prefixes: map<int, string>

    constructor ()
      ensures hdcs == map[] && prefixes == map[]
    {
      hdcs := map[];
      prefixes := map[];
    }

    /** Registers (ptr, kind) under the name the generator gives; a name
     *  already present is overwritten. */
    method Create(ptr: nat, kind: int, name: string) returns (r: string)
      modifies this
      ensures r == name
      ensures hdcs == old(hdcs)[name := HdcValue(ptr, kind)] && prefixes == old(prefixes)
      ensures AddrIn(hdcs, r) == ptr && ValidIn(hdcs, r, kind) && ValidIn(hdcs, r, 0)
      ensures forall n :: n != r ==> AddrIn(hdcs, n) == AddrIn(old(hdcs), n)
    {
      hdcs := hdcs[name := HdcValue(ptr, kind)];
      r := name;
    }

    /** 1 when the name is registered and valid for the type, else 0. */
    method Valid(name: string, kind: int) returns (ok: int)
      ensures ok == 0 || ok == 1
      ensures ok == 1 <==> name in hdcs && (kind <= 0 || hdcs[name].kind == kind)
    {
      if name in hdcs {
        var val := hdcs[name];
        if kind <= 0 || val.kind == kind {
          return 1;
        }
      }
      return 0;
    }

    /** Removes a registered name and answers 1, or answers 0 and changes
     *  nothing. */
    method Delete(name: string) returns (r: int)
      modifies this
      ensures r == 0 || r == 1
      ensures r == 1 <==> name in old(hdcs)
      ensures hdcs == old(hdcs) - {name} && prefixes == old(prefixes)
      ensures r == 0 ==> hdcs == old(hdcs)
      ensures AddrIn(hdcs, name) == 0 && forall k :: !ValidIn(hdcs, name, k)
    {
      if name in hdcs {
        hdcs := hdcs - {name};
        return 1;
      }
      return 0;
    }

    /** The address registered under a name, 0 when there is none. */
    method Get(name: string) returns (addr: nat)
      ensures name !in hdcs ==> addr == 0
      ensures name in hdcs ==> addr == hdcs[name].addr
      ensures addr == AddrIn(hdcs, name)
    {
      if name in hdcs {
        var val := hdcs[name];
        return val.addr;
      }
      return 0;
    }

    /** The type registered under a name, which must be present. */
    method TypeOf(name: string) returns (kind: int)
      requires name in hdcs
      ensures kind == hdcs[name].kind
      ensures ValidIn(hdcs, name, kind)
    {
      var val := hdcs[name];
      kind := val.kind;
    }

    /** The prefix of a type; a new prefix is stored first, truncated to 32
     *  characters, creating the entry when there is none. */
    method PrefixOf(kind: int, newPrefix: Option<string>) returns (prefix: string)
      requires newPrefix.Some? || kind in prefixes
      modifies this
      ensures hdcs == old(hdcs)
      ensures newPrefix.None? ==> prefix == old(prefixes)[kind] && prefixes == old(prefixes)
      ensures newPrefix.Some? ==> prefix == Truncated(newPrefix.value) &&
                                  prefixes == old(prefixes)[kind := prefix]
      ensures |prefix| <= PrefixMax || newPrefix.None?
    {
      if kind in prefixes {
        prefix := prefixes[kind];
      }
      if newPrefix.Some? {
        var p := newPrefix.value;
        var len := if |p| > PrefixMax then PrefixMax else |p|;
        var cp := p[..len];
        prefixes := prefixes[kind := cp];
        prefix := cp;
      }
    }

    /** Lists the names of the type (all names when the type is not
     *  positive) into out[0 .. outlen), in the table's iteration order
     *  `order`, and answers how many were written. */
    method List(kind: int, order: seq<string>, out: array<string>, outlen: nat)
      returns (count: nat, written: nat)
      requires forall n :: n in order <==> n in hdcs
      requires Distinct(order)
      requires outlen <= out.Length
      modifies out
      ensures count == written && count <= outlen
      ensures count == Min(|Matching(order, hdcs, kind)|, outlen)
      ensures out[..count] == Matching(order, hdcs, kind)[..count]
      ensures forall j :: 0 <= j < count ==> ValidIn(hdcs, out[j], kind)
      ensures forall i, j :: 0 <= i < j < count ==> out[i] != out[j]
      ensures |Matching(order, hdcs, kind)| <= outlen ==>
                forall n :: ValidIn(hdcs, n, kind) ==> n in out[..count]
      ensures forall j :: count <= j < out.Length ==> out[j] == old(out[j])
    {
      count := 0;
      written := 0;
      for e := 0 to |order|
        invariant count == written
        invariant count == Min(|Matching(order[..e], hdcs, kind)|, outlen)
        invariant out[..count] == Matching(order[..e], hdcs, kind)[..count]
        invariant forall j :: count <= j < out.Length ==> out[j] == old(out[j])
      {
        MatchingStep(order, hdcs, kind, e);
        var cp := order[e];
        if count < outlen {
          var val := hdcs[cp];
          if kind <= 0 || kind == val.kind {
            out[count] := cp;
            count := count + 1;
            written := written + 1;
          }
        }
      }
      assert order[..|order|] == order;
      ListedFacts(order, hdcs, kind, out[..count], outlen);
    }
  }

  function Min(a: nat, b: nat): nat
  {
    if a < b then a else b
  }
}
