# Multilingual product name search — a Dafny model

This project models the logic of an Odoo add-on that makes website product search
work across languages. The add-on has two pieces, each in two variants.

- **Stored search fields on `product.template`.**
  - The all-languages variant (`models/product_template.py`) collects the product's
    name as it resolves in every installed language into a set. It strips each name,
    drops blank ones and joins the rest with single spaces into `name_search_all`.
    It also stores a lowercase copy (`name_search_all_lower`) and a whitespace-collapsed
    copy (`name_search_tsv`).
  - The older variant (`product_template.py`) joins the English (`en_US`) and Bengali
    (`bn_BD`) names, keeping each only when non-empty. Its `write` recomputes the field
    when `name` is among the written values.
- **Website search domain.**
  - The ranked variant (`models/website_sale_product.py`) delegates to the default
    domain for a falsy search. Otherwise it lowercases the text, queries the database
    for ranked product ids and returns `('id', 'in', ids)`.
  - The older variant (`website_sale_product.py`) replaces the default domain by one
    `('name_search_all', 'ilike', search)` leaf whenever the search is truthy.

Files:

- `optional.dfy`: an `Option` type, standing for Python's `None`.
- `text.dfy`: module `Text`. These are the Python string operations used, at ASCII
  level: `isspace`, `lower`, `strip`, `split()` and `" ".join`. Their meaning is proved
  in lemmas: stripping, splitting into words, the join/split round trip, and whitespace
  collapsing.
- `multilang_name_search.dfy`: module `MultilangNameSearch`.
  - Python does not fix the iteration order of a set. The pure part is therefore stated
    over an *enumeration* of the name set: any sequence that lists each member exactly
    once.
  - The imperative part is proved against that pure part. The language loop and the
    per-record update are methods of the class `ProductTemplate`. The set comprehension
    (`StripNonBlank`) and the loop over the record set (`ComputeNameSearchAll`) are
    module-level methods.
- `bilingual_name_search.dfy`: module `BilingualNameSearch`, the two-language field and
  `write`.
- `search_domain.dfy`: module `SearchDomain`, Odoo domains and Python truthiness of the
  search argument.
- `ranked_website_search.dfy` and `ilike_website_search.dfy`: the two `_get_search_domain`
  overrides.
  - The inherited domain is an input.
  - In the ranked variant, the SQL query is an input function `fetch` from the query
    parameters to the fetched rows.

Three points about the code that the model follows:

- **A whitespace-only search does not delegate.** Only `None` and `''` are falsy, so
  `"   "` runs the ranked query (`models/website_sale_product.py:10`).
  `RankedWebsiteSearch.WhitespaceSearchDoesNotDelegate` states this.
- **A failing name read propagates.** The savepoint around each name read rolls back
  and re-raises (`models/product_template.py:30`).
- **No language order is fixed.** The names are iterated as a set
  (`models/product_template.py:28-32`). `MultilangNameSearch.LanguageOrderNotFixed`
  states this.

## Model

| member | source | states |
|---|---|---|
| Text.LowerAt | models/product_template.py:35 | `lower()` keeps the length, turns each ASCII capital into its own small letter (code point + 32) and leaves every other character unchanged |
| Text.LowerIdempotent | models/website_sale_product.py:13 | lowercasing an already lowercased text changes nothing |
| Text.TrimLeftSpec | models/product_template.py:32 | `lstrip()` removes exactly the leading whitespace run: the result is a suffix, everything dropped is whitespace, and the result does not start with whitespace |
| Text.TrimRightSpec | models/product_template.py:32 | `rstrip()` removes exactly the trailing whitespace run |
| Text.StripSpec | models/product_template.py:32 | `strip()` leaves no whitespace at either end, and is empty exactly when the name is blank (empty or whitespace-only) |
| Text.StripPadding | models/product_template.py:32 | stripping removes any whitespace padding from an already stripped text and nothing else |
| Text.StripIdempotent | models/product_template.py:32 | stripping twice is stripping once |
| Text.WordEndSpec | models/product_template.py:37 | a word of `split()` ends at the first whitespace or at the end of the text |
| Text.SplitWords | models/product_template.py:37 | every token of `split()` is non-empty and contains no whitespace |
| Text.SplitJoinWords | models/product_template.py:37 | round trip: splitting words joined by single spaces gives back the same words |
| Text.NormalizedFixpoint | models/product_template.py:37 | a text whose only whitespace is single spaces between words is rebuilt exactly by joining its own words |
| Text.CollapseCharacterisation | models/product_template.py:37 | `" ".join(c.split())` is the unique text that has the same words as `c` and no leading, trailing, repeated or non-space whitespace (both directions) |
| Text.JoinEmptyIff | models/product_template.py:33 | joining non-empty parts gives `""` exactly when there are no parts |
| Text.JoinContainsPart | models/product_template.py:33 | every part occurs as a substring of the joined text |
| Text.SplitConcat | models/product_template.py:37 | splitting a text cut just before whitespace splits the two sides separately |
| Text.SplitAroundSpace | product_template.py:25 | the words of `a + " " + b` are the words of `a` followed by those of `b` |
| MultilangNameSearch.PartsStripped | models/product_template.py:32 | every part kept by the comprehension is non-empty and has no surrounding whitespace |
| MultilangNameSearch.PartsEmptyIff | models/product_template.py:32 | no part survives exactly when every name is blank |
| MultilangNameSearch.CombinedEmptyIff | models/product_template.py:31-33 | `name_search_all` is `""` exactly when every collected name is blank; it is non-empty as soon as one language has a non-blank name |
| MultilangNameSearch.PartsAppend | models/product_template.py:32 | the comprehension distributes over concatenation of iteration orders |
| MultilangNameSearch.InParts | models/product_template.py:32 | a text is a part exactly when it is non-empty and the strip of some collected name (both directions) |
| MultilangNameSearch.FieldsOfSpec | models/product_template.py:33-37 | the three stored values: the combined text, its lowercase, and its whitespace-collapsed copy with the same words |
| MultilangNameSearch.DeriveSpec | models/product_template.py:32-37 | `name_search_all_lower` is the lowercase of `name_search_all`; `name_search_tsv` is normalized with the same words; the combined text is empty exactly when all names are blank |
| MultilangNameSearch.NonBlankNameContributes | models/product_template.py:29-33 | every language whose resolved name is not blank contributes its stripped name, which occurs in `name_search_all` |
| MultilangNameSearch.PartComesFromALanguage | models/product_template.py:29-33 | every part is stripped, non-empty and the stripped name of some language |
| MultilangNameSearch.AllBlankGivesEmptyFields | models/product_template.py:31-37 | when every language resolves to nothing or to blank text, all three fields are `""` |
| MultilangNameSearch.DistinctCount | models/product_template.py:28 | a set enumerated without repetition lists each member once |
| MultilangNameSearch.PartsPermutation | models/product_template.py:32 | iteration orders that are permutations of each other give parts that are permutations of each other |
| MultilangNameSearch.OrderOnlyPermutesParts | models/product_template.py:28-33 | any two iteration orders of the name set give the same parts, possibly in another order |
| MultilangNameSearch.EnumerationLength | models/product_template.py:28 | an iteration order of the set has exactly as many entries as the set has members |
| MultilangNameSearch.PartsCount | models/product_template.py:31-32 | a part occurs once per distinct raw name of the iteration order that strips to it |
| MultilangNameSearch.DedupBeforeStrip | models/product_template.py:28-33 | deduplication happens before stripping: each part occurs once per distinct resolved name that strips to it, so identical names count once and names differing only in surrounding whitespace count separately |
| MultilangNameSearch.IdenticalNamesAppearOnce | models/product_template.py:28-33 | two languages both named "Lampe" give `name_search_all == "Lampe"` (deduplication) |
| MultilangNameSearch.NearDuplicatesBothSurvive | models/product_template.py:28-33 | "Lampe" and "Lampe " are distinct before stripping, so both survive as "Lampe Lampe" in every iteration order |
| MultilangNameSearch.BothOrdersEnumerate | models/product_template.py:28 | two distinct names may be iterated in either order |
| MultilangNameSearch.CombinedOfTwoStripped | models/product_template.py:32-33 | two stripped non-empty names combine as the first, one space, the second |
| MultilangNameSearch.LanguageOrderNotFixed | models/product_template.py:28-33 | "Blue Shirt" and "Chemise Bleue" can give either "Blue Shirt Chemise Bleue" or "Chemise Bleue Blue Shirt" |
| MultilangNameSearch.RawNamesSnoc | models/product_template.py:31 | adding one language's name (`name or ''`) to the set adds exactly that member |
| MultilangNameSearch.StripNonBlank | models/product_template.py:32 | the comprehension walks the set in some order: the result is the parts of an iteration order of the set, each non-empty and stripped, and the strip of every non-blank name is among them |
| MultilangNameSearch.ProductTemplate.NamesIn | models/product_template.py:29-31 | one resolved name per language, in language order |
| MultilangNameSearch.ProductTemplate.CollectNames | models/product_template.py:28-31 | the language loop builds exactly the set of the record's resolved names, `None` read as `''` |
| MultilangNameSearch.ProductTemplate.ComputeSearchFields | models/product_template.py:28-37 | one record's fields become those derived from an iteration order of its own name set; its names are unchanged; lower and tsv relate to the combined text as stated in `DeriveSpec` |
| MultilangNameSearch.ComputeNameSearchAll | models/product_template.py:27-37 | every record of the record set gets the fields derived from its own names; only the records' stored fields change |
| BilingualNameSearch.CombineTwo | product_template.py:20-25 | English then Bengali with exactly one space when both are non-empty; the other name verbatim when one is empty or missing; `""` when both are |
| BilingualNameSearch.CombinedWords | product_template.py:24-25 | the words of the field are the English words followed by the Bengali words |
| BilingualNameSearch.EmptyIffBothEmpty | product_template.py:20-25 | the field is `""` exactly when both names are missing or empty |
| BilingualNameSearch.IdenticalNamesRepeated | product_template.py:24-25 | no deduplication: the same name X in both languages gives "X X" |
| BilingualNameSearch.WhitespaceNameKept | product_template.py:24-25 | no stripping: a whitespace-only name is truthy and kept verbatim, so the field is not empty |
| BilingualNameSearch.AgreesWithAllLanguages | product_template.py:20-25 | on two distinct stripped names the two-language field is the all-languages combination iterated English first |
| BilingualNameSearch.ComputeNameSearchAll | product_template.py:19-25 | every record's field is the combination of its own English and Bengali names; names are unchanged |
| BilingualNameSearch.Write | product_template.py:27-40 | returns the inherited write's result unchanged; recomputes every record's field exactly when `'name'` is a key of `vals`, and otherwise leaves the field as it was |
| IlikeWebsiteSearch.FalsySearchKeepsDefault | website_sale_product.py:13-21 | a `None` or empty search returns the default domain unchanged |
| IlikeWebsiteSearch.SearchTextGoesInVerbatim | website_sale_product.py:17-19 | a truthy search gives the single leaf `('name_search_all', 'ilike', search)` with the text exactly as typed |
| IlikeWebsiteSearch.DefaultConstraintsDiscarded | website_sale_product.py:13-19 | with a truthy search, category and attribute constraints of the default domain play no part |
| IlikeWebsiteSearch.WhitespaceSearchReplacesDefault | website_sale_product.py:17-19 | a whitespace-only search is truthy and replaces the default domain, although it strips to `""` |
| IlikeWebsiteSearch.DelegatesIffFalsy | website_sale_product.py:13-21 | the default domain comes back exactly when the search is falsy or the default already is that one leaf |
| RankedWebsiteSearch.QueryParamsSpec | models/website_sale_product.py:13-25 | the first parameter is the lowercased search, as long as the search; the second is the first wrapped in `%`; both are already lowercase |
| RankedWebsiteSearch.ProductIdsMembership | models/website_sale_product.py:28 | one id per fetched row, and an id is listed exactly when some row carries it |
| RankedWebsiteSearch.FalsySearchDelegates | models/website_sale_product.py:10-11 | a `None` or empty search returns the inherited domain unchanged |
| RankedWebsiteSearch.TruthySearchBuildsIdDomain | models/website_sale_product.py:13-30 | a truthy search gives the single leaf `('id', 'in', ids)` with the first column of the rows fetched for the lowercased text, in row order |
| RankedWebsiteSearch.WhitespaceSearchDoesNotDelegate | models/website_sale_product.py:10-30 | a whitespace-only search queries with that same text and returns an id domain, not the inherited one |
| RankedWebsiteSearch.NoRowsGiveEmptyIdList | models/website_sale_product.py:28-30 | no fetched rows give `('id', 'in', [])`, never the inherited domain |
| RankedWebsiteSearch.CaseInsensitive | models/website_sale_product.py:13-30 | truthy searches with the same lowercase form give the same domain |

## Left out

- ORM name resolution (`with_context(lang=...)`, translation fallback): a record's resolved names are the map `resolvedName`, one entry per language with a name.
- `env['res.lang'].search([])`: the installed language codes are the input `langs`.
- Savepoints: a failure while reading a name rolls back and propagates; the model assumes every read succeeds.
- `invalidate_recordset` and `recompute`: the recomputation is modelled as running the compute method on the written records.
- Field declarations (`store`, `index`) and the `@api.depends` trigger.
- SQL: `ts_rank`, `to_tsvector`, `plainto_tsquery`, `ILIKE`, `ORDER BY rank DESC` and `LIMIT 100` run in PostgreSQL. The fetched rows come from the input `fetch`, and the rank is carried as a `real` without interpretation.
- The `product_search_cache` table, its SQL data file and the cron job listed in `__manifest__.py` are not part of this model; nothing in the modelled code fills that table.
- `__manifest__.py`: packaging metadata only.
- Unicode: `isspace` covers the ASCII whitespace characters (including `\x1c`-`\x1f`) and `lower` maps ASCII letters only.
- Python's set hash order: modelled as any order that lists each member once. Python randomises string hashing per process, so two recomputations in different processes may order the parts differently. `OrderOnlyPermutesParts` states what stays the same.
- `keywords = search_lower.split()`: it is computed and never used, so the model has no `keywords`. A truthy search's result is a function of `QueryParams(search)` and the fetched rows alone.
- The inherited `_get_search_domain` and its `category` and `attrib_values` arguments: its result is the input `superDomain`.
- BilingualNameSearch.Write: the inherited `write` is the input `namesAfter` (each record's names after it ran) and `superResult`. Fields other than the name are not modelled.
- MultilangNameSearch.Parts: its own contract states only a length bound. Its meaning is stated in `PartsStripped`, `InParts` and `PartsEmptyIff`.
