# Bioregistry: schema summary, Integbio rows and collection lookups

This project is a Dafny model of three small pieces of the Bioregistry:

- **The schema documentation generator** (`src/bioregistry/export/json_schema_summary.py`).
  - When the module loads, it checks a fixed taxonomy: group names, each with an ordered list of field names.
  - The same pass builds `rv`, the map from each field to its group.
  - `main` files every field of the resource schema under its group.
  - It then produces one section per group, in `group_order`.
  - Each section has a `## Group` heading and one (title, description) row per listed field.
- **Integbio row normalisation** (`src/bioregistry/external/integbio.py`).
  - `_process_row` turns one catalogue row into a record with at most six keys.
  - The dictionary comprehension of `get_integbio` keys those records by "Database ID".
- **Collection lookups** (`src/bioregistry/collection_api.py`).
  - `get_collection` and `get_context` are dictionary lookups.
  - `get_collection_part_of` re-keys the collections by their `part_of_key`.

Modules:

- `Wrappers`: `Option` and `Result`.
- `PyText`: the parts of Python's `str.title()` and `str.replace` that the generator uses.
- `SchemaSummary`: the generator.
- `Integbio`: the row normalisation.
- `CollectionApi`: the lookups.

How the generator is modelled:

- The code that fills dictionaries in loops is modelled as methods with loop invariants:
  - the import-time `rv` loop is `CheckTaxonomy`;
  - the `field_groups` loop is `ClassifyFields`;
  - the section and row loops are `RenderTables`.
- Each method is tied by its contract to a functional definition, whose properties are proved as lemmas:
  - `CheckTaxonomy` succeeds exactly under the conditions on `groups` and `group_order`, and then `TaxonomyLoaded` holds: `rv` inverts `groups`;
  - `ClassifyFields` fails at `FirstUncategorized`, and otherwise its `field_groups` satisfies `Partitions`;
  - `RenderGroup` equals `SectionFor`, and `RenderTables` equals `RenderSections`;
  - `Summarize` (the whole of `main`) and `GenerateSchemaDocs` (module load, then `main`) equal `RenderSpec`.
- Schema fields are records: name, whether the field is typed `Any`, optional title, optional description.
- A section is a heading together with its (title, description) rows.

## Model

| member | source | states |
|---|---|---|
| SchemaSummary.CheckTaxonomy | src/bioregistry/export/json_schema_summary.py:49-56 | Fails with ValueError exactly when the set of groups differs from the set of `group_order`. Otherwise it fails with KeyError exactly when the concatenated field lists repeat a name. On success `rv` maps every listed field to the group that lists it, and has no other keys. |
| SchemaSummary.FileGroup | src/bioregistry/export/json_schema_summary.py:53-56 | Files the fields of group `i` into `rv`. On failure the error is KeyError and the whole taxonomy repeats a name. On success `rv` maps every field of groups `0..i` to the group that lists it and has no other key, and those fields are distinct. |
| SchemaSummary.RepeatIffListedTwice | src/bioregistry/export/json_schema_summary.py:51-55 | The concatenated field lists repeat a name exactly when some name is listed at two different places, in two groups or twice in one group. |
| SchemaSummary.AllFields | src/bioregistry/export/json_schema_summary.py:52-53 | Every field of every group occurs in the concatenation. Everything in the concatenation is a field of some group. |
| SchemaSummary.PositionOf | src/bioregistry/export/json_schema_summary.py:52-53 | Every position of the concatenation is field `j` of some group `i`, at the offset given by the number of fields in the groups before `i`, plus `j`. |
| SchemaSummary.AllFieldsAt | src/bioregistry/export/json_schema_summary.py:52-53 | Field `j` of group `i` sits at that offset in the concatenation. |
| SchemaSummary.AllFieldsOrdered | src/bioregistry/export/json_schema_summary.py:52-53 | The fields of an earlier group all come before the fields of a later group. |
| SchemaSummary.RepeatedField | src/bioregistry/export/json_schema_summary.py:54-55 | A field found already in `rv` while the loop runs is listed twice in the whole taxonomy. |
| SchemaSummary.KeysInOrder | src/bioregistry/export/json_schema_summary.py:49 | Groups named in the order of a list have exactly that list's names as their set of keys. |
| SchemaSummary.ConcreteGroupKeys | src/bioregistry/export/json_schema_summary.py:12-49 | The groups of the dictionary are exactly those of `group_order`. |
| SchemaSummary.DistinctAllFields | src/bioregistry/export/json_schema_summary.py:52-55 | If every group lists distinct fields and no two groups share a field, the concatenation has no repeat. |
| SchemaSummary.ConcreteGroupsDistinct | src/bioregistry/export/json_schema_summary.py:22-48 | Each concrete group lists each of its fields once. |
| SchemaSummary.ConcreteGroupsApart | src/bioregistry/export/json_schema_summary.py:22-48 | No field of the concrete taxonomy is listed by two groups. |
| SchemaSummary.ConcreteTaxonomyChecks | src/bioregistry/export/json_schema_summary.py:12-56 | The taxonomy as written passes both checks: the groups are exactly those of `group_order`, and no field name repeats. |
| SchemaSummary.LoadTaxonomy | src/bioregistry/export/json_schema_summary.py:12-56 | Loading the module succeeds. The `rv` it builds inverts the taxonomy. |
| SchemaSummary.ExampleExtrasIsRegistry | src/bioregistry/export/json_schema_summary.py:36-43 | In any inverse of the concrete taxonomy, `example_extras` maps to `registry`. |
| SchemaSummary.Documented | src/bioregistry/export/json_schema_summary.py:61-65 | The record kept for a name is a schema field of that name not typed `Any`. There is none exactly when every field of that name is typed `Any`. |
| SchemaSummary.FirstUncategorized | src/bioregistry/export/json_schema_summary.py:62-65 | Returns the first field not typed `Any` whose name `rv` lacks. That field is the one whose lookup on line 65 raises KeyError. It returns none exactly when no such field exists. |
| SchemaSummary.ClassifyFields | src/bioregistry/export/json_schema_summary.py:61-65 | Fails exactly when some field not typed `Any` is missing from `rv`, and names the first such field. On success, `field_groups` holds under `rv[n]` the record `Documented` picks for each name `n`, and holds nothing else. In particular it holds no field typed `Any`. |
| SchemaSummary.PartitionsSkip | src/bioregistry/export/json_schema_summary.py:63-64 | Skipping a field typed `Any` keeps the `field_groups` invariant. |
| SchemaSummary.PartitionsFile | src/bioregistry/export/json_schema_summary.py:65 | Filing a field under `rv[name]` keeps the `field_groups` invariant. |
| SchemaSummary.TitleOf | src/bioregistry/export/json_schema_summary.py:95 | A non-empty declared title is used as is. Otherwise, character by character, the title is the name with `_` turned into a space and title-cased. |
| SchemaSummary.DerivedTitleExample | src/bioregistry/export/json_schema_summary.py:95 | The derived title of `example_extras` is `Example Extras`. |
| SchemaSummary.CleanDescription | src/bioregistry/export/json_schema_summary.py:97 | The cleaned description contains no newline and is no longer than the original. |
| SchemaSummary.BlankLineExample | src/bioregistry/export/json_schema_summary.py:97 | `"a\n\nb"` becomes `"a b"`. |
| SchemaSummary.GroupRows | src/bioregistry/export/json_schema_summary.py:89-99 | On success it gives one row per listed field, in declared order, each the row of that field's documented record. A failure is the error of the first field whose record is missing or has no description, and every field before it succeeds. |
| SchemaSummary.LookupGroup | src/bioregistry/export/json_schema_summary.py:91 | `groups[group]` gives the list paired with `group`. It has no value exactly when `group` has no entry. |
| SchemaSummary.RenderSections | src/bioregistry/export/json_schema_summary.py:88-102 | On success it gives one section per group, in `group_order`, each that group's section. A failure is the first failing section's error, and every section before it succeeds. |
| SchemaSummary.RenderGroup | src/bioregistry/export/json_schema_summary.py:89-102 | The loop over one group's fields computes exactly that group's section, or its first error. The check at lines 100-101 is proved unreachable. |
| SchemaSummary.RenderTables | src/bioregistry/export/json_schema_summary.py:88-102 | The loop over `group_order` computes exactly `RenderSections`. |
| SchemaSummary.Summarize | src/bioregistry/export/json_schema_summary.py:59-106 | `main` on a loaded taxonomy computes exactly the reference definition `RenderSpec`. |
| SchemaSummary.GenerateSchemaDocs | src/bioregistry/export/json_schema_summary.py:12-106 | Loading the module and then running `main` computes exactly `RenderSpec` over the concrete taxonomy. |
| SchemaSummary.RenderSucceedsIff | src/bioregistry/export/json_schema_summary.py:62-102 | `main` completes exactly when two things hold. First, every field not typed `Any` is categorized. Second, every group of `group_order` has an entry, and each field it lists has a record not typed `Any` that carries a description. |
| SchemaSummary.RenderedLayout | src/bioregistry/export/json_schema_summary.py:88-102 | On success there is one section per group, in `group_order`. Each section's heading is `"## " + group.title()`. Each section has one row per listed field, in order, made of the field's title and cleaned description. |
| SchemaSummary.AnyFieldsDoNotMatter | src/bioregistry/export/json_schema_summary.py:63-64 | Removing every field typed `Any` from the schema does not change the outcome, whether it is a result or an error. |
| SchemaSummary.DocumentedIgnoresAny | src/bioregistry/export/json_schema_summary.py:63-65 | Fields typed `Any` never change the record kept for a name. |
| SchemaSummary.FirstUncategorizedIgnoresAny | src/bioregistry/export/json_schema_summary.py:63-65 | Fields typed `Any` never change which field raises at line 65. |
| SchemaSummary.EmptySchema | src/bioregistry/export/json_schema_summary.py:91-92 | With no schema fields, `main` succeeds only if every group lists no field. Otherwise it fails with the KeyError of line 92. |
| SchemaSummary.WithoutAny | src/bioregistry/export/json_schema_summary.py:63-64 | Keeps exactly the fields not typed `Any`. |
| PyText.TitleCase | src/bioregistry/export/json_schema_summary.py:95 | `str.title()`: a character that follows a letter is lower-cased. Every other character is upper-cased. The length is unchanged. |
| PyText.ReplaceChar | src/bioregistry/export/json_schema_summary.py:95-97 | `str.replace` of one character: each occurrence is replaced and every other character is kept. |
| PyText.SquashShortensIff | src/bioregistry/export/json_schema_summary.py:97 | `replace("  ", " ")` shortens the string exactly when it contains two adjacent spaces. Without such a pair it returns the string unchanged. |
| PyText.SquashRun | src/bioregistry/export/json_schema_summary.py:97 | A run of `n` spaces becomes `(n + 1) / 2` spaces, so runs are halved and not collapsed to one space. |
| PyText.SquashAppend | src/bioregistry/export/json_schema_summary.py:97 | The pass works piecewise across a boundary that follows a non-space. |
| PyText.ThreeSpacesBecomeTwo | src/bioregistry/export/json_schema_summary.py:97 | `"a   b"` becomes `"a  b"`. |
| PyText.TitleCaseWords | src/bioregistry/export/json_schema_summary.py:95 | Title-casing two words joined by a space title-cases each word on its own. |
| PyText.TitleCaseExample | src/bioregistry/export/json_schema_summary.py:95 | `"example extras".title()` is `"Example Extras"`. |
| Integbio.ProcessRow | src/bioregistry/external/integbio.py:33-45 | Fails exactly when "Database ID", "Database name" or "URL" is absent, naming the first of these that is missing. |
| Integbio.ProcessRowCarries | src/bioregistry/external/integbio.py:37-45 | Each output key is present exactly when its cell is not NaN, and it then holds that cell. This covers prefix, name and homepage from the `[]` lookups, and altname and description from `.get`. `fairsharing` holds the link as lines 34-36 leave it. Every output key is one of prefix, name, altname, homepage, description, fairsharing. |
| Integbio.FairsharingValue | src/bioregistry/external/integbio.py:34-36 | A present, non-empty link starting with `https://fairsharing.org/` loses that prefix. Another non-empty link is unchanged. A missing link stays missing and an empty link stays empty. |
| Integbio.FairsharingPrefixStripped | src/bioregistry/external/integbio.py:34-36 | A row whose link is `https://fairsharing.org/` followed by `rest` is stored with `fairsharing` equal to `rest`. |
| Integbio.EmptyFairsharingKept | src/bioregistry/external/integbio.py:35 | An empty FAIRsharing link is kept as `""` and is not dropped. |
| Integbio.OptionalColumnsMayBeAbsent | src/bioregistry/external/integbio.py:34 | When the required columns are present, the row is processed. An absent optional column only omits its key. |
| Integbio.RemovePrefix | src/bioregistry/external/integbio.py:36 | When `prefix` starts `s`, the result is the rest: `prefix + r == s`. Otherwise the result is `s`. |
| Integbio.Get | src/bioregistry/external/integbio.py:34 | After `row.get(column)`, an absent column and a NaN cell look the same: a value is returned exactly when the column is present and its cell is not NaN, and it is that cell. |
| Integbio.DropMissingKeeps | src/bioregistry/external/integbio.py:45 | Each key is kept exactly when its value is not NaN, and keeps that value. No other key appears. |
| Integbio.GetIntegbio | src/bioregistry/external/integbio.py:26 | The comprehension succeeds exactly when every row has the three columns read with `[]`. Otherwise the error is the first failing row's error. |
| Integbio.CatalogueStep | src/bioregistry/external/integbio.py:26 | The dictionary of all rows is that of the earlier rows with the last row's record stored under its ID. |
| Integbio.CatalogueHasEveryId | src/bioregistry/external/integbio.py:26 | Every row's ID is a key. |
| Integbio.CatalogueLastWins | src/bioregistry/external/integbio.py:26 | Each key maps to the processed record of the last row carrying that ID. |
| CollectionApi.Get | src/bioregistry/collection_api.py:17-32 | `get_collection` and `get_context` give the entry stored under the identifier, or none exactly when no entry has that identifier. |
| CollectionApi.GetCollectionPartOf | src/bioregistry/collection_api.py:22-27 | Every key is non-empty and is its value's `part_of_key`. Every collection with a non-empty `part_of_key` has that key present. |
| CollectionApi.PartOfLastWins | src/bioregistry/collection_api.py:23-27 | Each value is the last input collection with that key. |
| CollectionApi.UnkeyedCollectionsSkipped | src/bioregistry/collection_api.py:26 | A collection whose `part_of_key` is `None` or empty is never a value of the result. |
| CollectionApi.LastCollectionWins | src/bioregistry/collection_api.py:23-27 | The last collection with a given non-empty `part_of_key` is the one stored under that key. |

## Left out

- Writing the document is not modelled: the preamble (`dedent`), the `tabulate` table text, and `print` to `JSON_SCHEMA_PATH`. Sections are returned as data.
- Pydantic reflection over `Resource.__fields__` is not modelled. The schema fields are an input sequence of records.
- In `integbio.py`, the download (`pd.read_csv(URL)`), the JSON cache read and write, and the directory creation are not modelled. The CSV rows are an input sequence.
- `pd.notna` is modelled as `Option`: `None` stands for NaN. CSV cells are modelled as strings.
- `removeprefix` from `bioregistry.utils` is not part of this model. `RemovePrefix` gives it the standard remove-prefix meaning.
- `read_collections` and `read_contexts` read files. Their results are inputs: a sequence of (identifier, entry) pairs in iteration order. The Context type from `schema.py` is not part of this model, so `Get` is generic in the entry type.
- Collection: only `part_of_key` takes part. The field `attributes` stands in for all the other attributes of the schema class, which are not modelled one by one.
- `src/bioregistry/curation/make_subject_curation_sheet.py` is not part of this model. It calls registry accessors that are not shown, and it writes spreadsheets.
- Integbio.GetIntegbio: requires every present "Database ID" cell to be non-NaN. A NaN key (a float NaN) has no counterpart in a map keyed by strings.
- PyText.TitleCase: treats only ASCII letters as cased. Python's Unicode case rules are not modelled.
- The `groups` dictionary is a sequence of (group, fields) pairs in insertion order. `rv` and `field_groups` are maps.
  - As in a Python dictionary, group names are meant to be distinct. The sequence type does not enforce this; with a repeated name, `LookupGroup` returns the first entry where a dictionary literal keeps the last. The literal taxonomy has distinct names (`ConcreteGroupKeys`).
  - Likewise the schema's field names and the identifiers of `read_collections` are distinct in the program. The model accepts repeats: for fields, `Documented` keeps the last non-`Any` record of a name, as the loop's later assignment overwrites an earlier one; `CollectionApi.Get` returns the last entry stored under an identifier.
- `field_groups` holds pydantic field objects. Here it holds the field records.
- Behaviour the model keeps as the code has it:
  - A schema whose listed field is missing raises KeyError at line 92. It does not produce empty tables.
  - A repeated field raises a bare KeyError that does not name the field. `DuplicateField` carries no name.
  - Runs of spaces in descriptions are halved by one `replace` pass, not collapsed to one space.
