/**
 * The older, two-language variant of the stored search field (product_template.py):
 * `name_search_all` is the English name (en_US) and the Bengali name (bn_BD), each
 * kept only when non-empty, joined by one space. Nothing is stripped and nothing is
 * deduplicated. Editing a product's name triggers the recomputation.
 */
module BilingualNameSearch {
  import opened Optional
  import opened Text
  import MultilangNameSearch

  const English: string := "en_US"
  const Bengali: string := "bn_BD"

  /** `[p for p in (en_name, bn_name) if p]`: the non-empty names, English first. */
  function NonEmptyNames(en: string, bn: string): seq<string> {
    (if en != "" then [en] else []) + (if bn != "" then [bn] else [])
  }

  /** The stored value for the two resolved names (`None` when the record has no name there). */
  function CombineTwo(enName: Option<string>, bnName: Option<string>): (r: string)
    ensures OrEmpty(enName) != "" && OrEmpty(bnName) != "" ==> r == OrEmpty(enName) + " " + OrEmpty(bnName)
    ensures OrEmpty(enName) == "" ==> r == OrEmpty(bnName)
    ensures OrEmpty(bnName) == "" ==> r == OrEmpty(enName)
  {
    var en, bn := OrEmpty(enName), OrEmpty(bnName);
    var parts := NonEmptyNames(en, bn);
    assert parts == if en == "" then (if bn == "" then [] else [bn])
                    else (if bn == "" then [en] else [en, bn]);
    assert en != "" && bn != "" ==> parts[1..] == [bn] && SpaceJoin(parts) == en + " " + SpaceJoin([bn]);
    SpaceJoin(parts)
  }

  /** The words of the field are the English words followed by the Bengali words. */
  lemma CombinedWords(enName: Option<string>, bnName: Option<string>)
    ensures Split(CombineTwo(enName, bnName)) == Split(OrEmpty(enName)) + Split(OrEmpty(bnName))
  {
    var en, bn := OrEmpty(enName), OrEmpty(bnName);
    if en != "" && bn != "" {
      SplitAroundSpace(en, bn);
    } else if en == "" {
      assert Split(en) == [];
    } else {
      assert Split(bn) == [];
    }
  }

  /** The field is empty exactly when both names are missing or empty. */
  lemma EmptyIffBothEmpty(enName: Option<string>, bnName: Option<string>)
    ensures CombineTwo(enName, bnName) == "" <==> OrEmpty(enName) == "" && OrEmpty(bnName) == ""
  {
  }

  /** No deduplication: the same name in both languages appears twice. */
  lemma IdenticalNamesRepeated(x: string)
    requires x != ""
    ensures CombineTwo(Some(x), Some(x)) == x + " " + x
  {
  }

  /** No stripping: a whitespace-only name is non-empty, so it is kept verbatim. */
  lemma WhitespaceNameKept(ws: string, bnName: Option<string>)
    requires ws != "" && IsBlank(ws)
    ensures CombineTwo(Some(ws), bnName) == if OrEmpty(bnName) == "" then ws else ws + " " + OrEmpty(bnName)
    ensures CombineTwo(Some(ws), bnName) != ""
  {
  }

  /**
   * On two distinct, already stripped names the two-language field is the all-languages
   * combination taken in the order English, Bengali.
   */
  lemma AgreesWithAllLanguages(en: string, bn: string)
    requires en != "" && bn != "" && en != bn && IsStripped(en) && IsStripped(bn)
    ensures MultilangNameSearch.IsEnumeration([en, bn], MultilangNameSearch.RawNames([Some(en), Some(bn)]))
    ensures CombineTwo(Some(en), Some(bn)) == MultilangNameSearch.Combined([en, bn])
  {
    MultilangNameSearch.BothOrdersEnumerate(en, bn);
    MultilangNameSearch.CombinedOfTwoStripped(en, bn);
  }

  /**
   * A product template record. `resolvedName` stands for the ORM's name resolution:
   * the name the record shows under each language context, absent when it has none.
   */
  class ProductTemplate {
    var resolvedName: map<string, string>
    var nameSearchAll: string

    constructor (resolvedName: map<string, string>)
      ensures this.resolvedName == resolvedName && nameSearchAll == ""
    {
      this.resolvedName := resolvedName;
      nameSearchAll := "";
    }

    /** `record.with_context(lang=lang).name`, `None` when the record has no name there. */
    function NameIn(lang: string): Option<string>
      reads this`resolvedName
    {
      if lang in resolvedName then Some(resolvedName[lang]) else None
    }

    /** The field is up to date with the record's English and Bengali names. */
    predicate HasSearchField()
      reads this
    {
      nameSearchAll == CombineTwo(NameIn(English), NameIn(Bengali))
    }
  }

  /** `_compute_name_search_all`: each record's field from its own two names; no name changes. */
  method ComputeNameSearchAll(records: seq<ProductTemplate>)
    modifies set r | r in records
    ensures forall r :: r in records ==> r.resolvedName == old(r.resolvedName) && r.HasSearchField()
  {
    for i := 0 to |records|
      invariant forall r :: r in records ==> r.resolvedName == old(r.resolvedName)
      invariant forall k :: 0 <= k < i ==> records[k].HasSearchField()
    {
      var record := records[i];
      record.nameSearchAll := CombineTwo(record.NameIn(English), record.NameIn(Bengali));
    }
  }

  /**
   * `write(vals)`. The inherited write is outside the model: `namesAfter` gives each
   * record's names once it has run, and `superResult` is what it returned. The field is
   * recomputed exactly when `'name'` is a key of `vals`; otherwise it is left as it was.
   */
  method Write<V>(records: seq<ProductTemplate>, vals: map<string, V>,
                  namesAfter: map<ProductTemplate, map<string, string>>, superResult: bool)
    returns (result: bool)
    requires forall r :: r in records ==> r in namesAfter
    modifies set r | r in records
    ensures result == superResult
    ensures forall r :: r in records ==> r.resolvedName == namesAfter[r]
    ensures "name" in vals ==> forall r :: r in records ==> r.HasSearchField()
    ensures "name" !in vals ==> forall r :: r in records ==> r.nameSearchAll == old(r.nameSearchAll)
  {
    var trigger := "name" in vals;
    for i := 0 to |records|
      invariant forall r :: r in records ==> r.nameSearchAll == old(r.nameSearchAll)
      invariant forall k :: 0 <= k < i ==> records[k].resolvedName == namesAfter[records[k]]
    {
      records[i].resolvedName := namesAfter[records[i]];
    }
    result := superResult;
    if trigger {
      ComputeNameSearchAll(records);
    }
  }
}
