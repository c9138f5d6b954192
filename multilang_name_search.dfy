/**
 * The stored search fields of a product template, computed from the product's
 * name as it resolves in every installed language (models/product_template.py).
 *
 * For each record, the resolved names are collected into a Python set, so identical
 * raw names appear once; the set is then iterated in an unspecified order, each name
 * is stripped and blank ones are dropped, and the rest are joined with single spaces.
 * The pure part is stated over an enumeration `e` of that set: any sequence listing
 * each element exactly once, which is all Python promises about set iteration order.
 */
module MultilangNameSearch {
  import opened Optional
  import opened Text

  /** The set built by `names.add(name or '')` over all languages. */
  function RawNames(resolved: seq<Option<string>>): (names: set<string>)
  {
    set i | 0 <= i < |resolved| :: OrEmpty(resolved[i])
  }

  predicate NoDuplicates(e: seq<string>) {
    forall i, j :: 0 <= i < j < |e| ==> e[i] != e[j]
  }

  /** `e` is one possible iteration order of the set `names`. */
  ghost predicate IsEnumeration(e: seq<string>, names: set<string>) {
    NoDuplicates(e) && forall x :: x in e <==> x in names
  }

  /** `[n.strip() for n in names if n.strip()]` with the set iterated in the order `e`. */
  function Parts(e: seq<string>): (parts: seq<string>)
    ensures |parts| <= |e|
  {
    if e == [] then []
    else (if Strip(e[0]) == "" then [] else [Strip(e[0])]) + Parts(e[1..])
  }

  /** `" ".join(...)` of the parts: the value stored in `name_search_all`. */
  function Combined(e: seq<string>): string {
    SpaceJoin(Parts(e))
  }

  /** The three stored fields of one record. */
  datatype SearchFields = SearchFields(nameSearchAll: string, nameSearchAllLower: string, nameSearchTsv: string)

  /**
   * The three fields stored for a combined text: the text itself, its lowercase
   * copy, and the copy with every whitespace run collapsed to one space.
   */
  function FieldsOf(combined: string): SearchFields {
    SearchFields(combined, Lower(combined), SpaceJoin(Split(combined)))
  }

  /** The fields computed from one iteration order `e` of the name set. */
  function Derive(e: seq<string>): SearchFields {
    FieldsOf(Combined(e))
  }

  /**
   * The lowercase field is the lowercase of the combined text, and the tsvector
   * source is the combined text with its whitespace runs collapsed to single
   * spaces and its ends trimmed: the one normalized text with the same words.
   */
  lemma FieldsOfSpec(combined: string)
    ensures FieldsOf(combined).nameSearchAll == combined
    ensures FieldsOf(combined).nameSearchAllLower == Lower(combined)
    ensures Normalized(FieldsOf(combined).nameSearchTsv)
    ensures Split(FieldsOf(combined).nameSearchTsv) == Split(combined)
  {
    CollapseCharacterisation(combined, SpaceJoin(Split(combined)));
  }

  /** What the stored fields of one iteration order say about each other and about the names. */
  lemma DeriveSpec(e: seq<string>)
    ensures Derive(e).nameSearchAllLower == Lower(Derive(e).nameSearchAll)
    ensures Normalized(Derive(e).nameSearchTsv)
    ensures Split(Derive(e).nameSearchTsv) == Split(Derive(e).nameSearchAll)
    ensures Derive(e).nameSearchAll == "" <==> forall n :: n in e ==> IsBlank(n)
  {
    FieldsOfSpec(Combined(e));
    CombinedEmptyIff(e);
  }

  /** Every part joined into the combined text is a non-empty stripped name. */
  lemma {:induction false} PartsStripped(e: seq<string>)
    ensures forall k :: 0 <= k < |Parts(e)| ==> Parts(e)[k] != "" && IsStripped(Parts(e)[k])
  {
    if e != [] {
      StripSpec(e[0]);
      PartsStripped(e[1..]);
    }
  }

  lemma {:induction false} PartsEmptyIff(e: seq<string>)
    ensures Parts(e) == [] <==> forall n :: n in e ==> IsBlank(n)
  {
    if e != [] {
      PartsEmptyIff(e[1..]);
      StripSpec(e[0]);
      assert forall n :: n in e <==> n == e[0] || n in e[1..];
    }
  }

  /** The combined text is empty exactly when every resolved name is blank. */
  lemma CombinedEmptyIff(e: seq<string>)
    ensures Combined(e) == "" <==> forall n :: n in e ==> IsBlank(n)
  {
    PartsEmptyIff(e);
    PartsStripped(e);
    JoinEmptyIff(Parts(e));
  }

  lemma {:induction false} PartsAppend(a: seq<string>, b: seq<string>)
    ensures Parts(a + b) == Parts(a) + Parts(b)
  {
    if a != [] {
      assert (a + b)[1..] == a[1..] + b;
      PartsAppend(a[1..], b);
    } else {
      assert a + b == b;
    }
  }

  /** A part is exactly the stripped form of some non-blank name of the enumeration. */
  lemma {:induction false} InParts(e: seq<string>, p: string)
    ensures p in Parts(e) <==> p != "" && exists n :: n in e && Strip(n) == p
  {
    if e != [] {
      InParts(e[1..], p);
      if p != "" && Strip(e[0]) == p {
        assert p in Parts(e);
      }
      if exists n :: n in e && Strip(n) == p {
        var n :| n in e && Strip(n) == p;
        assert n == e[0] || n in e[1..];
      }
    }
  }

  /** Every language whose name is not blank contributes its stripped name to the combined text. */
  lemma NonBlankNameContributes(resolved: seq<Option<string>>, e: seq<string>, i: nat)
    requires IsEnumeration(e, RawNames(resolved))
    requires i < |resolved| && !IsBlank(OrEmpty(resolved[i]))
    ensures Strip(OrEmpty(resolved[i])) in Parts(e)
    ensures Contains(Combined(e), Strip(OrEmpty(resolved[i])))
  {
    var p := Strip(OrEmpty(resolved[i]));
    StripSpec(OrEmpty(resolved[i]));
    assert OrEmpty(resolved[i]) in RawNames(resolved);
    InParts(e, p);
    var k :| 0 <= k < |Parts(e)| && Parts(e)[k] == p;
    JoinContainsPart(Parts(e), k);
  }

  /** Every part of the combined text is the stripped, non-blank name of some language. */
  lemma PartComesFromALanguage(resolved: seq<Option<string>>, e: seq<string>, p: string)
    requires IsEnumeration(e, RawNames(resolved))
    requires p in Parts(e)
    ensures p != "" && IsStripped(p)
    ensures exists i :: 0 <= i < |resolved| && Strip(OrEmpty(resolved[i])) == p
  {
    InParts(e, p);
    PartsStripped(e);
    var n :| n in e && Strip(n) == p;
    assert n in RawNames(resolved);
    var i :| 0 <= i < |resolved| && OrEmpty(resolved[i]) == n;
  }

  /** When every language resolves to nothing or to blank text, all three fields are empty. */
  lemma AllBlankGivesEmptyFields(resolved: seq<Option<string>>, e: seq<string>)
    requires IsEnumeration(e, RawNames(resolved))
    requires forall i :: 0 <= i < |resolved| ==> IsBlank(OrEmpty(resolved[i]))
    ensures Derive(e) == SearchFields("", "", "")
  {
    forall n | n in e
      ensures IsBlank(n)
    {
      assert n in RawNames(resolved);
    }
    DeriveSpec(e);
    var f := Derive(e);
    assert f.nameSearchAll == "";
    assert Split("") == [];
    NormalizedFixpoint(f.nameSearchTsv);
  }

  lemma {:induction false} DistinctCount(e: seq<string>, x: string)
    requires NoDuplicates(e)
    ensures multiset(e)[x] == if x in e then 1 else 0
  {
    if e != [] {
      assert e == [e[0]] + e[1..];
      DistinctCount(e[1..], x);
    }
  }

  lemma {:induction false} PartsPermutation(a: seq<string>, b: seq<string>)
    requires multiset(a) == multiset(b)
    ensures multiset(Parts(a)) == multiset(Parts(b))
    decreases |a|
  {
    if a == [] {
      assert |b| == |multiset(b)| == 0;
    } else {
      var x := a[0];
      assert x in multiset(b);
      var k :| 0 <= k < |b| && b[k] == x;
      var b' := b[..k] + b[k + 1..];
      assert b == b[..k] + [x] + b[k + 1..];
      assert a == [x] + a[1..];
      assert multiset(b) == multiset(b[..k]) + multiset{x} + multiset(b[k + 1..]);
      assert multiset(a) == multiset{x} + multiset(a[1..]);
      assert multiset(b') == multiset(b[..k]) + multiset(b[k + 1..]);
      assert multiset(b') == multiset(b) - multiset{x};
      assert multiset(a[1..]) == multiset(a) - multiset{x};
      PartsPermutation(a[1..], b');
      PartsAppend(b[..k], b[k + 1..]);
      PartsAppend(b[..k] + [x], b[k + 1..]);
      PartsAppend(b[..k], [x]);
      PartsAppend([x], a[1..]);
    }
  }

  /**
   * Python fixes no iteration order for the set: any two iteration orders yield the
   * same parts, possibly in a different order.
   */
  lemma OrderOnlyPermutesParts(names: set<string>, e1: seq<string>, e2: seq<string>)
    requires IsEnumeration(e1, names) && IsEnumeration(e2, names)
    ensures multiset(Parts(e1)) == multiset(Parts(e2))
  {
    forall x
      ensures multiset(e1)[x] == multiset(e2)[x]
    {
      DistinctCount(e1, x);
      DistinctCount(e2, x);
    }
    assert multiset(e1) == multiset(e2);
    PartsPermutation(e1, e2);
  }

  lemma {:induction false} EnumerationLength(e: seq<string>, names: set<string>)
    requires IsEnumeration(e, names)
    ensures |e| == |names|
    decreases |e|
  {
    if e != [] {
      var rest := names - {e[0]};
      assert IsEnumeration(e[1..], rest) by {
        forall x
          ensures x in e[1..] <==> x in rest
        {
          assert x in e <==> x == e[0] || x in e[1..];
        }
      }
      EnumerationLength(e[1..], rest);
    } else {
      assert forall x :: x in names ==> x in e;
      assert names == {};
    }
  }

  lemma RawNamesOfTwo(x: string, y: string)
    ensures RawNames([Some(x), Some(y)]) == {x, y}
  {
    var resolved := [Some(x), Some(y)];
    assert OrEmpty(resolved[0]) == x;
    assert OrEmpty(resolved[1]) == y;
  }

  /** The parts of a two-name enumeration whose names are already stripped and non-empty. */
  lemma PartsOfTwoStripped(x: string, y: string)
    requires IsStripped(x) && IsStripped(y) && x != "" && y != ""
    ensures Parts([x, y]) == [x, y]
  {
    StripOfStripped(x);
    StripOfStripped(y);
    assert [x, y][1..] == [y];
  }

  /** The raw names of an iteration order that strip to `p`. */
  function StripsTo(e: seq<string>, p: string): set<string> {
    set n | n in e && Strip(n) == p
  }

  /**
   * A part occurs once for every distinct raw name that strips to it: deduplication
   * happens on the raw names, before stripping.
   */
  lemma {:induction false} PartsCount(e: seq<string>, p: string)
    requires NoDuplicates(e) && p != ""
    ensures multiset(Parts(e))[p] == |StripsTo(e, p)|
  {
    if e == [] {
      assert StripsTo(e, p) == {};
    } else {
      var x, t := e[0], e[1..];
      assert NoDuplicates(t) by {
        forall i, j | 0 <= i < j < |t|
          ensures t[i] != t[j]
        {
          assert t[i] == e[i + 1] && t[j] == e[j + 1];
        }
      }
      assert x !in t by {
        forall j | 0 <= j < |t|
          ensures t[j] != x
        {
          assert t[j] == e[j + 1];
        }
      }
      PartsCount(t, p);
      var head := if Strip(x) == "" then [] else [Strip(x)];
      assert Parts(e) == head + Parts(t);
      assert multiset(Parts(e)) == multiset(head) + multiset(Parts(t));
      assert forall n :: n in e <==> n == x || n in t;
      if Strip(x) == p {
        assert StripsTo(e, p) == StripsTo(t, p) + {x};
        assert x !in StripsTo(t, p);
      } else {
        assert StripsTo(e, p) == StripsTo(t, p);
      }
    }
  }

  /**
   * In the combined parts, `p` occurs once per distinct resolved name (`None` read as
   * `''`) that strips to it: identical names in two languages count once, names that
   * differ only in surrounding whitespace count separately.
   */
  lemma DedupBeforeStrip(resolved: seq<Option<string>>, e: seq<string>, p: string)
    requires IsEnumeration(e, RawNames(resolved)) && p != ""
    ensures multiset(Parts(e))[p] == |set n | n in RawNames(resolved) && Strip(n) == p|
  {
    PartsCount(e, p);
    assert StripsTo(e, p) == set n | n in RawNames(resolved) && Strip(n) == p;
  }

  /** Two languages with the identical name "Lampe" contribute it once. */
  lemma IdenticalNamesAppearOnce(e: seq<string>)
    requires IsEnumeration(e, RawNames([Some("Lampe"), Some("Lampe")]))
    ensures Combined(e) == "Lampe"
  {
    RawNamesOfTwo("Lampe", "Lampe");
    var names: set<string> := {"Lampe"};
    EnumerationLength(e, names);
    assert e == ["Lampe"];
    StripOfStripped("Lampe");
    assert Parts(e) == ["Lampe"];
  }

  /**
   * Deduplication happens before stripping: "Lampe" and "Lampe " are distinct set
   * members and both survive, in either iteration order, as "Lampe Lampe".
   */
  lemma NearDuplicatesBothSurvive(e: seq<string>)
    requires IsEnumeration(e, RawNames([Some("Lampe"), Some("Lampe ")]))
    ensures Combined(e) == "Lampe Lampe"
  {
    RawNamesOfTwo("Lampe", "Lampe ");
    var names: set<string> := {"Lampe", "Lampe "};
    assert |names| == 2;
    EnumerationLength(e, names);
    assert e[0] in names && e[1] in names && e[0] != e[1];
    StripsToLampe(e[0]);
    StripsToLampe(e[1]);
    assert e[1..][1..] == [];
    assert Parts(e) == ["Lampe", "Lampe"];
    assert SpaceJoin(["Lampe", "Lampe"]) == "Lampe Lampe";
  }

  lemma StripsToLampe(x: string)
    requires x == "Lampe" || x == "Lampe "
    ensures Strip(x) == "Lampe"
  {
    StripPadding("", "Lampe", if x == "Lampe" then "" else " ");
    assert x == "" + "Lampe" + (if x == "Lampe" then "" else " ");
  }

  /** Two distinct names can be listed in either order. */
  lemma BothOrdersEnumerate(x: string, y: string)
    requires x != y
    ensures IsEnumeration([x, y], RawNames([Some(x), Some(y)]))
    ensures IsEnumeration([y, x], RawNames([Some(x), Some(y)]))
  {
    RawNamesOfTwo(x, y);
  }

  /** Two stripped, non-empty names combine as the first, one space, the second. */
  lemma CombinedOfTwoStripped(x: string, y: string)
    requires IsStripped(x) && IsStripped(y) && x != "" && y != ""
    ensures Combined([x, y]) == x + " " + y
  {
    PartsOfTwoStripped(x, y);
    assert SpaceJoin([x, y]) == x + " " + SpaceJoin([y]);
  }

  /** No language order is guaranteed: both orders of two names are possible results. */
  lemma LanguageOrderNotFixed()
    ensures IsEnumeration(["Blue Shirt", "Chemise Bleue"], RawNames([Some("Blue Shirt"), Some("Chemise Bleue")]))
    ensures IsEnumeration(["Chemise Bleue", "Blue Shirt"], RawNames([Some("Blue Shirt"), Some("Chemise Bleue")]))
    ensures Combined(["Blue Shirt", "Chemise Bleue"]) == "Blue Shirt Chemise Bleue"
    ensures Combined(["Chemise Bleue", "Blue Shirt"]) == "Chemise Bleue Blue Shirt"
  {
    var x, y := "Blue Shirt", "Chemise Bleue";
    BothOrdersEnumerate(x, y);
    CombinedOfTwoStripped(x, y);
    CombinedOfTwoStripped(y, x);
  }

  lemma RawNamesSnoc(resolved: seq<Option<string>>, i: nat)
    requires i < |resolved|
    ensures RawNames(resolved[..i + 1]) == RawNames(resolved[..i]) + {OrEmpty(resolved[i])}
  {
    var before, after := resolved[..i], resolved[..i + 1];
    forall x
      ensures x in RawNames(after) <==> x in RawNames(before) + {OrEmpty(resolved[i])}
    {
      if x in RawNames(after) {
        var j :| 0 <= j < i + 1 && OrEmpty(after[j]) == x;
        if j < i {
          assert OrEmpty(before[j]) == x;
        }
      }
      if x in RawNames(before) {
        var j :| 0 <= j < i && OrEmpty(before[j]) == x;
        assert OrEmpty(after[j]) == x;
      }
      assert OrEmpty(after[i]) == OrEmpty(resolved[i]);
    }
  }

  lemma AppendFresh(order: seq<string>, n: string)
    requires NoDuplicates(order) && n !in order
    ensures NoDuplicates(order + [n])
    ensures forall x :: x in order + [n] <==> x in order || x == n
  {
  }

  /**
   * `[n.strip() for n in names if n.strip()]`: the comprehension walks the set in
   * some order, chosen here one element at a time; `order` records the order taken.
   */
  method StripNonBlank(names: set<string>) returns (parts: seq<string>, ghost order: seq<string>)
    ensures IsEnumeration(order, names) && parts == Parts(order)
    ensures forall k :: 0 <= k < |parts| ==> parts[k] != "" && IsStripped(parts[k])
    ensures forall n :: n in names && !IsBlank(n) ==> Strip(n) in parts
  {
    parts, order := [], [];
    var rest := names;
    while rest != {}
      invariant rest <= names
      invariant forall x :: x in order <==> x in names && x !in rest
      invariant NoDuplicates(order)
      invariant parts == Parts(order)
      decreases |rest|
    {
      var n :| n in rest;
      if Strip(n) != "" {
        parts := parts + [Strip(n)];
      }
      PartsAppend(order, [n]);
      assert Parts([n]) == if Strip(n) == "" then [] else [Strip(n)];
      AppendFresh(order, n);
      order := order + [n];
      rest := rest - {n};
    }
    PartsStripped(order);
    forall n | n in names && !IsBlank(n)
      ensures Strip(n) in parts
    {
      StripSpec(n);
      InParts(order, Strip(n));
    }
  }

  /**
   * A product template record. `resolvedName` stands for the ORM's name resolution:
   * the name the record shows under each language context, absent when it has none.
   */
  class ProductTemplate {
    var resolvedName: map<string, string>
    var nameSearchAll: string
    var nameSearchAllLower: string
    var nameSearchTsv: string
    /** The iteration order of the name set used by the last recomputation. */
    ghost var nameOrder: seq<string>

    constructor (resolvedName: map<string, string>)
      ensures this.resolvedName == resolvedName
      ensures nameSearchAll == "" && nameSearchAllLower == "" && nameSearchTsv == ""
    {
      this.resolvedName := resolvedName;
      nameSearchAll, nameSearchAllLower, nameSearchTsv := "", "", "";
      nameOrder := [];
    }

    /** `record.with_context(lang=lang).name`, `None` when the record has no name there. */
    function NameIn(lang: string): Option<string>
      reads this`resolvedName
    {
      if lang in resolvedName then Some(resolvedName[lang]) else None
    }

    /** The name under each language of `langs`, in order. */
    function NamesIn(langs: seq<string>): (resolved: seq<Option<string>>)
      reads this`resolvedName
      ensures |resolved| == |langs|
      ensures forall i :: 0 <= i < |langs| ==> resolved[i] == NameIn(langs[i])
    {
      if langs == [] then [] else [NameIn(langs[0])] + NamesIn(langs[1..])
    }

    function Fields(): SearchFields
      reads this
    {
      SearchFields(nameSearchAll, nameSearchAllLower, nameSearchTsv)
    }

    /** The stored fields are those derived from an iteration order of this record's name set. */
    ghost predicate HasSearchFields(langs: seq<string>)
      reads this
    {
      IsEnumeration(nameOrder, RawNames(NamesIn(langs))) && Fields() == Derive(nameOrder)
    }

    /** The inner loop: one `names.add(name or '')` per installed language. */
    method CollectNames(langs: seq<string>) returns (names: set<string>)
      ensures names == RawNames(NamesIn(langs))
    {
      names := {};
      ghost var resolved := NamesIn(langs);
      for i := 0 to |langs|
        invariant names == RawNames(resolved[..i])
      {
        RawNamesSnoc(resolved, i);
        names := names + {OrEmpty(NameIn(langs[i]))};
      }
      assert resolved[..|langs|] == resolved;
    }

    /** The body of the record loop: recompute this record's three stored fields. */
    method ComputeSearchFields(langs: seq<string>)
      modifies this
      ensures resolvedName == old(resolvedName)
      ensures HasSearchFields(langs)
      ensures nameSearchAllLower == Lower(nameSearchAll)
      ensures Normalized(nameSearchTsv) && Split(nameSearchTsv) == Split(nameSearchAll)
    {
      ghost var resolved := NamesIn(langs);
      var names := CollectNames(langs);
      var parts, order := StripNonBlank(names);
      assert IsEnumeration(order, RawNames(resolved));
      var fields := FieldsOf(SpaceJoin(parts));
      nameSearchAll := fields.nameSearchAll;
      nameSearchAllLower := fields.nameSearchAllLower;
      nameSearchTsv := fields.nameSearchTsv;
      nameOrder := order;
      assert NamesIn(langs) == resolved;
      assert Fields() == Derive(order);
      DeriveSpec(order);
    }
  }

  /**
   * `_compute_name_search_all` over a record set: every record gets the fields derived
   * from its own names, and nothing but the records' stored fields changes.
   */
  method ComputeNameSearchAll(records: seq<ProductTemplate>, langs: seq<string>)
    modifies set r | r in records
    ensures forall r :: r in records ==> r.resolvedName == old(r.resolvedName)
    ensures forall r :: r in records ==> r.HasSearchFields(langs)
  {
    for i := 0 to |records|
      invariant forall r :: r in records ==> r.resolvedName == old(r.resolvedName)
      invariant forall k :: 0 <= k < i ==> records[k].HasSearchFields(langs)
    {
      records[i].ComputeSearchFields(langs);
    }
  }
}
