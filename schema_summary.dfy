/**
 * The generator of the human-readable page on the resource data model
 * (src/bioregistry/export/json_schema_summary.py).
 *
 * A fixed taxonomy sorts the fields of a resource record into groups.
 * When the module is loaded the taxonomy is checked and inverted into a map
 * `rv` from field name to group (CheckTaxonomy). `main` then buckets the
 * documentable fields by group (ClassifyFields) and lays out one section per
 * group, one row per field (RenderTables). Sections are data here; the table
 * text, the preamble and the file they are written to are not modelled.
 */
module SchemaSummary {
  import opened Wrappers
  import opened PyText

  /** What the record schema says about one field; `isAny` is "declared with type `Any`". */
  datatype Field = Field(name: string, isAny: bool, title: Option<string>, description: Option<string>)

  /** A table row: the display title and the description of one field. */
  type Row = (string, string)

  /** One `## Group` heading and the rows of its table. */
  datatype Section = Section(heading: string, rows: seq<Row>)

  /** Exceptions raised while the module is loaded. */
  datatype TaxonomyError =
    | GroupOrderMismatch  // ValueError: `groups` and `group_order` name different groups
    | DuplicateField      // KeyError: a field name is listed twice

  /** Exceptions raised by `main`, with the field name involved. */
  datatype RenderError =
    | UncategorizedField(name: string)  // KeyError: a documentable field is in no group
    | UnknownGroup(group: string)       // KeyError: `group_order` names a group `groups` lacks
    | MissingField(name: string)        // KeyError: a listed field is absent or typed `Any`
    | MissingDescription(name: string)  // AttributeError: the description is None

  // ---------------------------------------------------------------------------
  // The taxonomy

  const GroupOrder: seq<string> :=
    ["metadata", "properties", "downloads", "registry", "miriam", "attribution", "ontology", "provenance"]

  const MetadataFields: seq<string> :=
    ["prefix", "preferred_prefix", "synonyms", "name", "description", "homepage", "repository", "license", "version"]
  const PropertiesFields: seq<string> := ["deprecated", "no_own_terms", "proprietary"]
  const DownloadsFields: seq<string> := ["download_owl", "download_obo", "download_json", "download_rdf"]
  const RegistryFields: seq<string> :=
    ["pattern", "uri_format", "providers", "example", "example_extras", "example_decoys"]
  const MiriamFields: seq<string> := ["namespace_in_lui", "banana", "banana_peel"]
  const AttributionFields: seq<string> := ["contact", "contributor", "reviewer", "contributor_extras", "twitter"]
  const OntologyFields: seq<string> :=
    ["mappings", "part_of", "provides", "has_canonical", "appears_in", "depends_on"]
  const ProvenanceFields: seq<string> := ["references", "comment", "publications", "github_request_issue"]

  /** The `groups` dictionary, its entries in insertion order. */
  const Groups: seq<(string, seq<string>)> := [
    ("metadata", MetadataFields),
    ("properties", PropertiesFields),
    ("downloads", DownloadsFields),
    ("registry", RegistryFields),
    ("miriam", MiriamFields),
    ("attribution", AttributionFields),
    ("ontology", OntologyFields),
    ("provenance", ProvenanceFields)
  ]

  function ToSet(s: seq<string>): set<string>
  {
    set x | x in s
  }

  /** `set(groups)`: the group names that have an entry. */
  function KeySet(groups: seq<(string, seq<string>)>): set<string>
  {
    set p | p in groups :: p.0
  }

  /** Every group's field list, concatenated in dictionary order. */
  function AllFields(groups: seq<(string, seq<string>)>): (r: seq<string>)
    ensures forall i, j :: 0 <= i < |groups| && 0 <= j < |groups[i].1| ==> groups[i].1[j] in r
    ensures forall x :: x in r ==> exists i :: 0 <= i < |groups| && x in groups[i].1
  {
    if groups == [] then []
    else
      var prefix := groups[..|groups| - 1];
      var r := AllFields(prefix) + groups[|groups| - 1].1;
      assert forall i :: 0 <= i < |prefix| ==> prefix[i] == groups[i];
      r
  }

  predicate Distinct(s: seq<string>)
  {
    forall a, b :: 0 <= a < b < |s| ==> s[a] != s[b]
  }

  /**
   * `rv` inverts `groups`: every listed field maps to the group that lists it,
   * and `rv` knows no other field.
   */
  predicate IsInverse(groups: seq<(string, seq<string>)>, rv: map<string, string>)
  {
    && (forall i, j :: 0 <= i < |groups| && 0 <= j < |groups[i].1| ==>
          groups[i].1[j] in rv && rv[groups[i].1[j]] == groups[i].0)
    && rv.Keys == ToSet(AllFields(groups))
  }

  /** What holds once the module has been loaded without an exception. */
  predicate TaxonomyLoaded(groupOrder: seq<string>, groups: seq<(string, seq<string>)>, rv: map<string, string>)
  {
    KeySet(groups) == ToSet(groupOrder) && Distinct(AllFields(groups)) && IsInverse(groups, rv)
  }

  lemma AllFieldsSnoc(groups: seq<(string, seq<string>)>, g: (string, seq<string>))
    ensures AllFields(groups + [g]) == AllFields(groups) + g.1
  {
    assert (groups + [g])[..|groups|] == groups;
  }

  lemma {:induction false} AllFieldsPrefix(groups: seq<(string, seq<string>)>, k: nat)
    requires k <= |groups|
    ensures AllFields(groups[..k]) <= AllFields(groups)
    decreases |groups|
  {
    if k < |groups| {
      var front := groups[..|groups| - 1];
      assert front[..k] == groups[..k];
      AllFieldsPrefix(front, k);
    } else {
      assert groups[..k] == groups;
    }
  }

  /** `name` is listed at two different places, in two groups or twice in one. */
  predicate ListedTwice(groups: seq<(string, seq<string>)>, name: string)
  {
    exists i1, j1, i2, j2 ::
      && 0 <= i1 < |groups| && 0 <= j1 < |groups[i1].1|
      && 0 <= i2 < |groups| && 0 <= j2 < |groups[i2].1|
      && (i1, j1) != (i2, j2)
      && groups[i1].1[j1] == name && groups[i2].1[j2] == name
  }

  /** Field `j` of group `i` sits at `|AllFields(groups[..i])| + j` of the concatenation. */
  lemma AllFieldsAt(groups: seq<(string, seq<string>)>, i: nat, j: nat)
    requires i < |groups| && j < |groups[i].1|
    ensures |AllFields(groups[..i])| + j < |AllFields(groups)|
    ensures AllFields(groups)[|AllFields(groups[..i])| + j] == groups[i].1[j]
  {
    assert groups[..i + 1] == groups[..i] + [groups[i]];
    AllFieldsSnoc(groups[..i], groups[i]);
    AllFieldsPrefix(groups, i + 1);
  }

  /** A field met again while `rv` is being filled is listed twice overall. */
  lemma RepeatedField(groups: seq<(string, seq<string>)>, i: nat, j: nat)
    requires i < |groups| && j < |groups[i].1|
    requires groups[i].1[j] in AllFields(groups[..i]) + groups[i].1[..j]
    ensures !Distinct(AllFields(groups))
  {
    var before, values := AllFields(groups[..i]), groups[i].1;
    var earlier := before + values[..j];
    var a :| 0 <= a < |earlier| && earlier[a] == values[j];
    if a < |before| {
      var i1, j1 := PositionOf(groups[..i], a);
      AllFieldsAt(groups[..i], i1, j1);
      assert groups[..i][i1] == groups[i1];
      ListedTwiceIsRepeat(groups, i1, j1, i, j);
    } else {
      ListedTwiceIsRepeat(groups, i, a - |before|, i, j);
    }
  }

  /** The fields of an earlier group come before those of a later one. */
  lemma AllFieldsOrdered(groups: seq<(string, seq<string>)>, i1: nat, i2: nat)
    requires i1 < i2 <= |groups|
    ensures |AllFields(groups[..i1])| + |groups[i1].1| <= |AllFields(groups[..i2])|
  {
    var upTo := groups[..i2];
    assert upTo[..i1 + 1] == groups[..i1 + 1];
    assert groups[..i1 + 1] == groups[..i1] + [groups[i1]];
    AllFieldsSnoc(groups[..i1], groups[i1]);
    AllFieldsPrefix(upTo, i1 + 1);
  }

  /** Every position of the concatenation is some field of some group. */
  lemma {:induction false} PositionOf(groups: seq<(string, seq<string>)>, p: nat) returns (i: nat, j: nat)
    requires p < |AllFields(groups)|
    ensures i < |groups| && j < |groups[i].1| && |AllFields(groups[..i])| + j == p
    decreases |groups|
  {
    var front := groups[..|groups| - 1];
    assert AllFields(groups) == AllFields(front) + groups[|groups| - 1].1;
    if p < |AllFields(front)| {
      i, j := PositionOf(front, p);
      assert front[..i] == groups[..i];
    } else {
      i, j := |groups| - 1, p - |AllFields(front)|;
    }
  }

  lemma RepeatIsListedTwice(groups: seq<(string, seq<string>)>, a: nat, b: nat)
    requires a < b < |AllFields(groups)| && AllFields(groups)[a] == AllFields(groups)[b]
    ensures ListedTwice(groups, AllFields(groups)[a])
  {
    var i1, j1 := PositionOf(groups, a);
    var i2, j2 := PositionOf(groups, b);
    AllFieldsAt(groups, i1, j1);
    AllFieldsAt(groups, i2, j2);
    assert (i1, j1) != (i2, j2);
  }

  lemma ListedTwiceIsRepeat(groups: seq<(string, seq<string>)>, i1: nat, j1: nat, i2: nat, j2: nat)
    requires i1 < |groups| && j1 < |groups[i1].1| && i2 < |groups| && j2 < |groups[i2].1|
    requires (i1, j1) != (i2, j2) && groups[i1].1[j1] == groups[i2].1[j2]
    ensures !Distinct(AllFields(groups))
  {
    AllFieldsAt(groups, i1, j1);
    AllFieldsAt(groups, i2, j2);
    if i1 < i2 {
      AllFieldsOrdered(groups, i1, i2);
    } else if i2 < i1 {
      AllFieldsOrdered(groups, i2, i1);
    }
    var p1, p2 := |AllFields(groups[..i1])| + j1, |AllFields(groups[..i2])| + j2;
    var all := AllFields(groups);
    assert all[p1] == all[p2];
    if p1 < p2 {
      assert !Distinct(all);
    } else {
      assert p2 < p1;
    }
  }

  /**
   * The KeyError of line 55 is raised exactly when some field name is listed
   * twice, whether in two groups or twice in the same group.
   */
  lemma RepeatIffListedTwice(groups: seq<(string, seq<string>)>)
    ensures !Distinct(AllFields(groups)) <==> exists name :: ListedTwice(groups, name)
  {
    var all := AllFields(groups);
    if !Distinct(all) {
      var a, b :| 0 <= a < b < |all| && all[a] == all[b];
      RepeatIsListedTwice(groups, a, b);
    }
    if name :| ListedTwice(groups, name) {
      var i1, j1, i2, j2 :|
        && 0 <= i1 < |groups| && 0 <= j1 < |groups[i1].1|
        && 0 <= i2 < |groups| && 0 <= j2 < |groups[i2].1|
        && (i1, j1) != (i2, j2)
        && groups[i1].1[j1] == name && groups[i2].1[j2] == name;
      ListedTwiceIsRepeat(groups, i1, j1, i2, j2);
    }
  }

  /** Every field of the first `i` groups maps in `rv` to the group that lists it. */
  predicate FiledUpTo(groups: seq<(string, seq<string>)>, i: nat, rv: map<string, string>)
    requires i <= |groups|
  {
    forall a, b :: 0 <= a < i && 0 <= b < |groups[a].1| ==> groups[a].1[b] in rv && rv[groups[a].1[b]] == groups[a].0
  }

  lemma ToSetSnoc(s: seq<string>, x: string)
    ensures ToSet(s + [x]) == ToSet(s) + {x}
  {
  }

  lemma DistinctSnoc(s: seq<string>, x: string)
    requires Distinct(s) && x !in s
    ensures Distinct(s + [x])
  {
  }

  /** What the inner loop of lines 53-56 keeps after `j` fields of group `i`. */
  predicate FiledPart(groups: seq<(string, seq<string>)>, i: nat, j: nat, filed: map<string, string>)
    requires i < |groups| && j <= |groups[i].1|
  {
    var before, values := AllFields(groups[..i]), groups[i].1;
    && filed.Keys == ToSet(before + values[..j])
    && Distinct(before + values[..j])
    && FiledUpTo(groups, i, filed)
    && forall b :: 0 <= b < j ==> values[b] in filed && filed[values[b]] == groups[i].0
  }

  lemma FileStep(groups: seq<(string, seq<string>)>, i: nat, j: nat, filed: map<string, string>)
    requires i < |groups| && j < |groups[i].1| && FiledPart(groups, i, j, filed)
    requires groups[i].1[j] !in filed
    ensures FiledPart(groups, i, j + 1, filed[groups[i].1[j] := groups[i].0])
  {
    var before, values := AllFields(groups[..i]), groups[i].1;
    assert before + values[..j + 1] == (before + values[..j]) + [values[j]];
    ToSetSnoc(before + values[..j], values[j]);
    DistinctSnoc(before + values[..j], values[j]);
  }

  lemma FileDone(groups: seq<(string, seq<string>)>, i: nat, filed: map<string, string>)
    requires i < |groups| && FiledPart(groups, i, |groups[i].1|, filed)
    ensures filed.Keys == ToSet(AllFields(groups[..i + 1])) && Distinct(AllFields(groups[..i + 1]))
    ensures FiledUpTo(groups, i + 1, filed)
  {
    assert groups[..i + 1] == groups[..i] + [groups[i]];
    AllFieldsSnoc(groups[..i], groups[i]);
    assert groups[i].1[..|groups[i].1|] == groups[i].1;
  }

  /**
   * The inner loop of lines 53-56 for group `i`: each of its fields is added
   * to `rv` under the group, failing on the first field already there.
   */
  method FileGroup(groups: seq<(string, seq<string>)>, i: nat, rv: map<string, string>)
    returns (r: Result<map<string, string>, TaxonomyError>)
    requires i < |groups|
    requires rv.Keys == ToSet(AllFields(groups[..i])) && Distinct(AllFields(groups[..i]))
    requires FiledUpTo(groups, i, rv)
    ensures r.Failure? ==> r.error == DuplicateField && !Distinct(AllFields(groups))
    ensures r.Success? ==> r.value.Keys == ToSet(AllFields(groups[..i + 1])) && Distinct(AllFields(groups[..i + 1]))
    ensures r.Success? ==> FiledUpTo(groups, i + 1, r.value)
  {
    var (key, values) := groups[i];
    var filed := rv;
    assert AllFields(groups[..i]) + values[..0] == AllFields(groups[..i]);
    for j := 0 to |values|
      invariant FiledPart(groups, i, j, filed)
    {
      if values[j] in filed {
        RepeatedField(groups, i, j);
        return Failure(DuplicateField);
      }
      FileStep(groups, i, j, filed);
      filed := filed[values[j] := key];
    }
    FileDone(groups, i, filed);
    return Success(filed);
  }

  /**
   * The module-load checks (lines 49-56): the groups of `groups` must be those
   * of `group_order`, then `rv` is filled group by group, field by field,
   * failing on the first field name seen before.
   */
  method CheckTaxonomy(groupOrder: seq<string>, groups: seq<(string, seq<string>)>)
    returns (r: Result<map<string, string>, TaxonomyError>)
    ensures r == Failure(GroupOrderMismatch) <==> KeySet(groups) != ToSet(groupOrder)
    ensures r == Failure(DuplicateField) <==> KeySet(groups) == ToSet(groupOrder) && !Distinct(AllFields(groups))
    ensures r.Success? ==> TaxonomyLoaded(groupOrder, groups, r.value)
  {
    if KeySet(groups) != ToSet(groupOrder) {
      return Failure(GroupOrderMismatch);
    }
    var rv: map<string, string> := map[];
    for i := 0 to |groups|
      invariant rv.Keys == ToSet(AllFields(groups[..i])) && Distinct(AllFields(groups[..i]))
      invariant FiledUpTo(groups, i, rv)
    {
      var filed := FileGroup(groups, i, rv);
      if filed.Failure? {
        return filed;
      }
      rv := filed.value;
    }
    assert groups[..|groups|] == groups;
    return Success(rv);
  }

  // ---------------------------------------------------------------------------
  // The reference definition of what `main` produces

  /**
   * The record `field_groups` holds for `name`: the field of that name not
   * typed `Any` (the last one, as repeated dictionary assignment keeps).
   */
  function Documented(fields: seq<Field>, name: string): (r: Option<Field>)
    ensures r.Some? ==> r.value in fields && r.value.name == name && !r.value.isAny
    ensures r.None? <==> forall k :: 0 <= k < |fields| ==> fields[k].name != name || fields[k].isAny
  {
    if fields == [] then None
    else
      var last := fields[|fields| - 1];
      if last.name == name && !last.isAny then Some(last)
      else
        var r := Documented(fields[..|fields| - 1], name);
        assert forall k :: 0 <= k < |fields| - 1 ==> fields[..|fields| - 1][k] == fields[k];
        r
  }

  /** `name` has a record not typed `Any`, and that record has a description. */
  predicate Documentable(fields: seq<Field>, name: string)
  {
    Documented(fields, name).Some? && Documented(fields, name).value.description.Some?
  }

  /** Field `k` is documentable (not typed `Any`) and `known` lacks its name. */
  predicate Uncategorized(fields: seq<Field>, known: set<string>, k: int)
  {
    0 <= k < |fields| && !fields[k].isAny && fields[k].name !in known
  }

  /** The first field, in schema order, not typed `Any` whose name `known` lacks. */
  function FirstUncategorized(fields: seq<Field>, known: set<string>): (r: Option<string>)
    ensures r.None? <==> forall k :: 0 <= k < |fields| ==> !Uncategorized(fields, known, k)
    ensures r.Some? ==> exists k :: Uncategorized(fields, known, k) && fields[k].name == r.value &&
                                    forall m :: 0 <= m < k ==> !Uncategorized(fields, known, m)
  {
    if fields == [] then None
    else if !fields[0].isAny && fields[0].name !in known then
      assert Uncategorized(fields, known, 0);
      Some(fields[0].name)
    else
      var r := FirstUncategorized(fields[1..], known);
      assert !Uncategorized(fields, known, 0);
      assert forall k :: 1 <= k < |fields| ==> Uncategorized(fields[1..], known, k - 1) == Uncategorized(fields, known, k);
      assert forall k :: 0 <= k < |fields| - 1 ==> Uncategorized(fields[1..], known, k) == Uncategorized(fields, known, k + 1);
      r
  }

  /**
   * The display title (line 95): the declared title unless it is missing or
   * empty, else the name with `_` turned into spaces, title-cased.
   */
  function TitleOf(title: Option<string>, name: string): (t: string)
    ensures title.Some? && title.value != "" ==> t == title.value
    ensures (title.None? || title.value == "") ==> |t| == |name| && forall i :: 0 <= i < |name| ==>
      t[i] == if name[i] == '_' then ' '
              else if i > 0 && IsCased(name[i - 1]) then Lower(name[i])
              else Upper(name[i])
  {
    if title.Some? && title.value != "" then title.value
    else TitleCase(ReplaceChar(name, '_', ' '))
  }

  /** The description (line 97): newlines become spaces, then one pass turns "  " into " ". */
  function CleanDescription(d: string): (r: string)
    ensures '\n' !in r
    ensures |r| <= |d|
  {
    var oneLine := ReplaceChar(d, '\n', ' ');
    assert '\n' !in oneLine;
    SquashLeavesNoNewline(oneLine);
    SquashDoubleSpaces(oneLine)
  }

  lemma {:induction false} SquashLeavesNoNewline(s: string)
    requires '\n' !in s
    ensures '\n' !in SquashDoubleSpaces(s)
    decreases |s|
  {
    if |s| >= 2 && s[0] == ' ' && s[1] == ' ' {
      SquashLeavesNoNewline(s[2..]);
    } else if s != [] {
      SquashLeavesNoNewline(s[1..]);
    }
  }

  /** The row for one listed field, or the exception its lookup or description raises. */
  function RowFor(fields: seq<Field>, name: string): Result<Row, RenderError>
  {
    match Documented(fields, name)
    case None => Failure(MissingField(name))
    case Some(f) =>
      if f.description.None? then Failure(MissingDescription(name))
      else Success((TitleOf(f.title, name), CleanDescription(f.description.value)))
  }

  /** The row of `names[j]` fails with `e`, and those before it do not fail. */
  predicate FirstFailingRow(names: seq<string>, fields: seq<Field>, j: int, e: RenderError)
  {
    && 0 <= j < |names|
    && RowFor(fields, names[j]) == Failure(e)
    && forall m :: 0 <= m < j ==> RowFor(fields, names[m]).Success?
  }

  /** The rows of a group, in its declared order, or the first exception. */
  function GroupRows(names: seq<string>, fields: seq<Field>): (r: Result<seq<Row>, RenderError>)
    ensures r.Success? ==> |r.value| == |names|
    ensures r.Success? ==> forall j :: 0 <= j < |names| ==> RowFor(fields, names[j]) == Success(r.value[j])
    ensures r.Failure? ==> exists j :: FirstFailingRow(names, fields, j, r.error)
  {
    if names == [] then Success([])
    else
      var front := names[..|names| - 1];
      assert forall j :: 0 <= j < |front| ==> front[j] == names[j];
      match GroupRows(front, fields)
      case Failure(e) =>
        assert exists j :: FirstFailingRow(names, fields, j, e) by {
          var j :| FirstFailingRow(front, fields, j, e);
          assert FirstFailingRow(names, fields, j, e);
        }
        Failure(e)
      case Success(rows) =>
        match RowFor(fields, names[|names| - 1])
        case Failure(e) =>
          assert FirstFailingRow(names, fields, |names| - 1, e);
          Failure(e)
        case Success(row) => Success(rows + [row])
  }

  /** `groups[group]`: the field list of the entry for `group`, if there is one. */
  function LookupGroup(groups: seq<(string, seq<string>)>, group: string): (r: Option<seq<string>>)
    ensures r.Some? ==> (group, r.value) in groups
    ensures r.None? <==> group !in KeySet(groups)
  {
    if groups == [] then None
    else if groups[0].0 == group then Some(groups[0].1)
    else
      var r := LookupGroup(groups[1..], group);
      assert KeySet(groups) == {groups[0].0} + KeySet(groups[1..]) by {
        assert groups == [groups[0]] + groups[1..];
      }
      r
  }

  function Heading(group: string): string
  {
    "## " + TitleCase(group)
  }

  /** The section of one group; `groups[group]` itself raises KeyError for an unknown group. */
  function SectionFor(groups: seq<(string, seq<string>)>, fields: seq<Field>, group: string)
    : Result<Section, RenderError>
  {
    match LookupGroup(groups, group)
    case None => Failure(UnknownGroup(group))
    case Some(names) =>
      match GroupRows(names, fields)
      case Failure(e) => Failure(e)
      case Success(rows) => Success(Section(Heading(group), rows))
  }

  /** The section of `groupOrder[k]` fails with `e`, and those before it do not fail. */
  predicate FirstFailingSection(groupOrder: seq<string>, groups: seq<(string, seq<string>)>, fields: seq<Field>,
                                k: int, e: RenderError)
  {
    && 0 <= k < |groupOrder|
    && SectionFor(groups, fields, groupOrder[k]) == Failure(e)
    && forall m :: 0 <= m < k ==> SectionFor(groups, fields, groupOrder[m]).Success?
  }

  /** One section per group in `group_order`, or the first exception. */
  function RenderSections(groupOrder: seq<string>, groups: seq<(string, seq<string>)>, fields: seq<Field>)
    : (r: Result<seq<Section>, RenderError>)
    ensures r.Success? ==> |r.value| == |groupOrder|
    ensures r.Success? ==> forall k :: 0 <= k < |groupOrder| ==>
                             SectionFor(groups, fields, groupOrder[k]) == Success(r.value[k])
    ensures r.Failure? ==> exists k :: FirstFailingSection(groupOrder, groups, fields, k, r.error)
  {
    if groupOrder == [] then Success([])
    else
      var front := groupOrder[..|groupOrder| - 1];
      assert forall k :: 0 <= k < |front| ==> front[k] == groupOrder[k];
      match RenderSections(front, groups, fields)
      case Failure(e) =>
        assert exists k :: FirstFailingSection(groupOrder, groups, fields, k, e) by {
          var k :| FirstFailingSection(front, groups, fields, k, e);
          assert FirstFailingSection(groupOrder, groups, fields, k, e);
        }
        Failure(e)
      case Success(sections) =>
        match SectionFor(groups, fields, groupOrder[|groupOrder| - 1])
        case Failure(e) =>
          assert FirstFailingSection(groupOrder, groups, fields, |groupOrder| - 1, e);
          Failure(e)
        case Success(section) => Success(sections + [section])
  }

  /**
   * What `main` yields: the first documentable field that no group lists
   * fails first; otherwise the sections, or the first exception among them.
   */
  function RenderSpec(groupOrder: seq<string>, groups: seq<(string, seq<string>)>, fields: seq<Field>)
    : Result<seq<Section>, RenderError>
  {
    match FirstUncategorized(fields, ToSet(AllFields(groups)))
    case Some(name) => Failure(UncategorizedField(name))
    case None => RenderSections(groupOrder, groups, fields)
  }

  // ---------------------------------------------------------------------------
  // `main`, step by step

  /**
   * `field_groups` buckets the record `Documented` picks for each field under
   * that field's group, and holds nothing else.
   */
  ghost predicate Partitions(fieldGroups: map<string, map<string, Field>>, rv: map<string, string>, fields: seq<Field>)
  {
    && (forall g, n :: g in fieldGroups && n in fieldGroups[g] ==>
          n in rv && rv[n] == g && Documented(fields, n) == Some(fieldGroups[g][n]))
    && (forall n :: Documented(fields, n).Some? ==> n in rv && rv[n] in fieldGroups && n in fieldGroups[rv[n]])
  }

  lemma DocumentedSnoc(fields: seq<Field>, i: nat, name: string)
    requires i < |fields|
    ensures Documented(fields[..i + 1], name) ==
      if fields[i].name == name && !fields[i].isAny then Some(fields[i]) else Documented(fields[..i], name)
  {
    assert fields[..i + 1][..i] == fields[..i];
  }

  lemma PartitionsSkip(fieldGroups: map<string, map<string, Field>>, rv: map<string, string>,
                       fields: seq<Field>, i: nat)
    requires i < |fields| && fields[i].isAny && Partitions(fieldGroups, rv, fields[..i])
    ensures Partitions(fieldGroups, rv, fields[..i + 1])
  {
    forall g, n | g in fieldGroups && n in fieldGroups[g]
      ensures n in rv && rv[n] == g && Documented(fields[..i + 1], n) == Some(fieldGroups[g][n])
    {
      DocumentedSnoc(fields, i, n);
    }
    forall n | Documented(fields[..i + 1], n).Some?
      ensures n in rv && rv[n] in fieldGroups && n in fieldGroups[rv[n]]
    {
      DocumentedSnoc(fields, i, n);
    }
  }

  lemma PartitionsFile(fieldGroups: map<string, map<string, Field>>, rv: map<string, string>,
                       fields: seq<Field>, i: nat)
    requires i < |fields| && !fields[i].isAny && fields[i].name in rv
    requires Partitions(fieldGroups, rv, fields[..i])
    ensures var field := fields[i];
            var group := rv[field.name];
            var bucket := if group in fieldGroups then fieldGroups[group] else map[];
            Partitions(fieldGroups[group := bucket[field.name := field]], rv, fields[..i + 1])
  {
    var field := fields[i];
    var group := rv[field.name];
    var bucket := if group in fieldGroups then fieldGroups[group] else map[];
    var updated := fieldGroups[group := bucket[field.name := field]];
    forall n {
      DocumentedSnoc(fields, i, n);
    }
    forall g, n | g in updated && n in updated[g]
      ensures n in rv && rv[n] == g && Documented(fields[..i + 1], n) == Some(updated[g][n])
    {
      if g == group && n == field.name {
      } else if g == group {
        assert n in bucket;
      } else {
        assert n in fieldGroups[g];
      }
    }
  }

  /** Lines 61-65: skip fields typed `Any`, file every other one under `rv[name]`. */
  method ClassifyFields(rv: map<string, string>, fields: seq<Field>)
    returns (r: Result<map<string, map<string, Field>>, RenderError>)
    ensures r.Failure? <==> FirstUncategorized(fields, rv.Keys).Some?
    ensures r.Failure? ==> r.error == UncategorizedField(FirstUncategorized(fields, rv.Keys).value)
    ensures r.Success? ==> Partitions(r.value, rv, fields)
  {
    var fieldGroups: map<string, map<string, Field>> := map[];
    for i := 0 to |fields|
      invariant forall m :: 0 <= m < i ==> !Uncategorized(fields, rv.Keys, m)
      invariant Partitions(fieldGroups, rv, fields[..i])
    {
      var field := fields[i];
      if field.isAny {
        PartitionsSkip(fieldGroups, rv, fields, i);
        continue;
      }
      if field.name !in rv {
        assert Uncategorized(fields, rv.Keys, i);
        return Failure(UncategorizedField(field.name));
      }
      PartitionsFile(fieldGroups, rv, fields, i);
      var group := rv[field.name];
      var bucket := if group in fieldGroups then fieldGroups[group] else map[];
      fieldGroups := fieldGroups[group := bucket[field.name := field]];
    }
    assert fields[..|fields|] == fields;
    return Success(fieldGroups);
  }

  lemma RowsFailAt(names: seq<string>, fields: seq<Field>, j: nat, e: RenderError)
    requires FirstFailingRow(names, fields, j, e)
    ensures GroupRows(names, fields) == Failure(e)
  {
    var j' :| FirstFailingRow(names, fields, j', GroupRows(names, fields).error);
    assert j' == j;
  }

  lemma RowsSucceed(names: seq<string>, fields: seq<Field>, rows: seq<Row>)
    requires |rows| == |names|
    requires forall j :: 0 <= j < |names| ==> RowFor(fields, names[j]) == Success(rows[j])
    ensures GroupRows(names, fields) == Success(rows)
  {
    var r := GroupRows(names, fields);
    assert r.Success?;
    assert forall j :: 0 <= j < |names| ==> r.value[j] == rows[j];
    assert r.value == rows;
  }

  lemma SectionsFailAt(groupOrder: seq<string>, groups: seq<(string, seq<string>)>, fields: seq<Field>,
                       k: nat, e: RenderError)
    requires FirstFailingSection(groupOrder, groups, fields, k, e)
    ensures RenderSections(groupOrder, groups, fields) == Failure(e)
  {
    var k' :| FirstFailingSection(groupOrder, groups, fields, k', RenderSections(groupOrder, groups, fields).error);
    assert k' == k;
  }

  lemma SectionsSucceed(groupOrder: seq<string>, groups: seq<(string, seq<string>)>, fields: seq<Field>,
                        sections: seq<Section>)
    requires |sections| == |groupOrder|
    requires forall k :: 0 <= k < |groupOrder| ==> SectionFor(groups, fields, groupOrder[k]) == Success(sections[k])
    ensures RenderSections(groupOrder, groups, fields) == Success(sections)
  {
    var r := RenderSections(groupOrder, groups, fields);
    assert r.Success?;
    assert forall k :: 0 <= k < |groupOrder| ==> r.value[k] == sections[k];
    assert r.value == sections;
  }

  /** A field listed under `group` is one `rv` files under `group`. */
  lemma ListedFieldIsFiled(groups: seq<(string, seq<string>)>, rv: map<string, string>, group: string,
                           names: seq<string>, j: nat)
    requires IsInverse(groups, rv) && (group, names) in groups && j < |names|
    ensures names[j] in rv && rv[names[j]] == group
  {
    var i :| 0 <= i < |groups| && groups[i] == (group, names);
    assert groups[i].1[j] == names[j];
  }

  /**
   * Lines 90-102, for one group: one row per listed field in order. The
   * check that a listed field is in `rv` (lines 100-101) can never fail.
   */
  method RenderGroup(groups: seq<(string, seq<string>)>, rv: map<string, string>,
                     fieldGroups: map<string, map<string, Field>>, ghost fields: seq<Field>, group: string)
    returns (r: Result<Section, RenderError>)
    requires IsInverse(groups, rv) && group in KeySet(groups)
    requires Partitions(fieldGroups, rv, fields)
    ensures r == SectionFor(groups, fields, group)
  {
    var names := LookupGroup(groups, group).value;
    var rows: seq<Row> := [];
    for j := 0 to |names|
      invariant |rows| == j
      invariant forall m :: 0 <= m < j ==> RowFor(fields, names[m]) == Success(rows[m])
    {
      var name := names[j];
      ListedFieldIsFiled(groups, rv, group, names, j);
      var bucket := if group in fieldGroups then fieldGroups[group] else map[];
      if name !in bucket {
        RowsFailAt(names, fields, j, MissingField(name));
        return Failure(MissingField(name));
      }
      var field := bucket[name];
      var title := TitleOf(field.title, name);
      if field.description.None? {
        RowsFailAt(names, fields, j, MissingDescription(name));
        return Failure(MissingDescription(name));
      }
      rows := rows + [(title, CleanDescription(field.description.value))];
      if name !in rv {
        assert false;
      }
    }
    RowsSucceed(names, fields, rows);
    return Success(Section(Heading(group), rows));
  }

  /** Lines 88-102: the sections of the groups in `group_order`, or the first exception. */
  method RenderTables(groupOrder: seq<string>, groups: seq<(string, seq<string>)>, rv: map<string, string>,
                      fieldGroups: map<string, map<string, Field>>, ghost fields: seq<Field>)
    returns (r: Result<seq<Section>, RenderError>)
    requires TaxonomyLoaded(groupOrder, groups, rv)
    requires Partitions(fieldGroups, rv, fields)
    ensures r == RenderSections(groupOrder, groups, fields)
  {
    var sections: seq<Section> := [];
    for k := 0 to |groupOrder|
      invariant |sections| == k
      invariant forall m :: 0 <= m < k ==> SectionFor(groups, fields, groupOrder[m]) == Success(sections[m])
    {
      var group := groupOrder[k];
      assert group in ToSet(groupOrder);
      var section := RenderGroup(groups, rv, fieldGroups, fields, group);
      if section.Failure? {
        SectionsFailAt(groupOrder, groups, fields, k, section.error);
        return Failure(section.error);
      }
      sections := sections + [section.value];
    }
    SectionsSucceed(groupOrder, groups, fields, sections);
    return Success(sections);
  }

  /** `main` on a loaded taxonomy. */
  method Summarize(groupOrder: seq<string>, groups: seq<(string, seq<string>)>, rv: map<string, string>,
                   fields: seq<Field>)
    returns (r: Result<seq<Section>, RenderError>)
    requires TaxonomyLoaded(groupOrder, groups, rv)
    ensures r == RenderSpec(groupOrder, groups, fields)
  {
    var classified := ClassifyFields(rv, fields);
    if classified.Failure? {
      return Failure(classified.error);
    }
    r := RenderTables(groupOrder, groups, rv, classified.value, fields);
  }

  // ---------------------------------------------------------------------------
  // The concrete taxonomy passes both module-load checks

  predicate Disjoint(a: seq<string>, b: seq<string>)
  {
    forall i, j :: 0 <= i < |a| && 0 <= j < |b| ==> a[i] != b[j]
  }

  lemma DistinctAppend(a: seq<string>, b: seq<string>)
    requires Distinct(a) && Distinct(b) && Disjoint(a, b)
    ensures Distinct(a + b)
  {
  }

  lemma MetadataFieldsDistinct()
    ensures Distinct(MetadataFields)
  {
  }

  lemma PropertiesFieldsDistinct()
    ensures Distinct(PropertiesFields)
  {
  }

  lemma MetadataPropertiesDisjoint()
    ensures Disjoint(MetadataFields, PropertiesFields)
  {
  }

  lemma DownloadsFieldsDistinct()
    ensures Distinct(DownloadsFields)
  {
  }

  lemma MetadataDownloadsDisjoint()
    ensures Disjoint(MetadataFields, DownloadsFields)
  {
  }

  lemma PropertiesDownloadsDisjoint()
    ensures Disjoint(PropertiesFields, DownloadsFields)
  {
  }

  lemma RegistryFieldsDistinct()
    ensures Distinct(RegistryFields)
  {
  }

  lemma MetadataRegistryDisjoint()
    ensures Disjoint(MetadataFields, RegistryFields)
  {
  }

  lemma PropertiesRegistryDisjoint()
    ensures Disjoint(PropertiesFields, RegistryFields)
  {
  }

  lemma DownloadsRegistryDisjoint()
    ensures Disjoint(DownloadsFields, RegistryFields)
  {
  }

  lemma MiriamFieldsDistinct()
    ensures Distinct(MiriamFields)
  {
  }

  lemma MetadataMiriamDisjoint()
    ensures Disjoint(MetadataFields, MiriamFields)
  {
  }

  lemma PropertiesMiriamDisjoint()
    ensures Disjoint(PropertiesFields, MiriamFields)
  {
  }

  lemma DownloadsMiriamDisjoint()
    ensures Disjoint(DownloadsFields, MiriamFields)
  {
  }

  lemma RegistryMiriamDisjoint()
    ensures Disjoint(RegistryFields, MiriamFields)
  {
  }

  lemma AttributionFieldsDistinct()
    ensures Distinct(AttributionFields)
  {
  }

  lemma MetadataAttributionDisjoint()
    ensures Disjoint(MetadataFields, AttributionFields)
  {
  }

  lemma PropertiesAttributionDisjoint()
    ensures Disjoint(PropertiesFields, AttributionFields)
  {
  }

  lemma DownloadsAttributionDisjoint()
    ensures Disjoint(DownloadsFields, AttributionFields)
  {
  }

  lemma RegistryAttributionDisjoint()
    ensures Disjoint(RegistryFields, AttributionFields)
  {
  }

  lemma MiriamAttributionDisjoint()
    ensures Disjoint(MiriamFields, AttributionFields)
  {
  }

  lemma OntologyFieldsDistinct()
    ensures Distinct(OntologyFields)
  {
  }

  lemma MetadataOntologyDisjoint()
    ensures Disjoint(MetadataFields, OntologyFields)
  {
  }

  lemma PropertiesOntologyDisjoint()
    ensures Disjoint(PropertiesFields, OntologyFields)
  {
  }

  lemma DownloadsOntologyDisjoint()
    ensures Disjoint(DownloadsFields, OntologyFields)
  {
  }

  lemma RegistryOntologyDisjoint()
    ensures Disjoint(RegistryFields, OntologyFields)
  {
  }

  lemma MiriamOntologyDisjoint()
    ensures Disjoint(MiriamFields, OntologyFields)
  {
  }

  lemma AttributionOntologyDisjoint()
    ensures Disjoint(AttributionFields, OntologyFields)
  {
  }

  lemma ProvenanceFieldsDistinct()
    ensures Distinct(ProvenanceFields)
  {
  }

  lemma MetadataProvenanceDisjoint()
    ensures Disjoint(MetadataFields, ProvenanceFields)
  {
  }

  lemma PropertiesProvenanceDisjoint()
    ensures Disjoint(PropertiesFields, ProvenanceFields)
  {
  }

  lemma DownloadsProvenanceDisjoint()
    ensures Disjoint(DownloadsFields, ProvenanceFields)
  {
  }

  lemma RegistryProvenanceDisjoint()
    ensures Disjoint(RegistryFields, ProvenanceFields)
  {
  }

  lemma MiriamProvenanceDisjoint()
    ensures Disjoint(MiriamFields, ProvenanceFields)
  {
  }

  lemma AttributionProvenanceDisjoint()
    ensures Disjoint(AttributionFields, ProvenanceFields)
  {
  }

  lemma OntologyProvenanceDisjoint()
    ensures Disjoint(OntologyFields, ProvenanceFields)
  {
  }

  /** Fields distinct within each group and across any two groups are distinct overall. */
  lemma {:induction false} DistinctAllFields(groups: seq<(string, seq<string>)>)
    requires forall k :: 0 <= k < |groups| ==> Distinct(groups[k].1)
    requires forall m, k :: 0 <= m < k < |groups| ==> Disjoint(groups[m].1, groups[k].1)
    ensures Distinct(AllFields(groups))
    decreases |groups|
  {
    if groups != [] {
      var n := |groups| - 1;
      var front := groups[..n];
      assert forall k :: 0 <= k < n ==> front[k] == groups[k];
      DistinctAllFields(front);
      AllFieldsSnoc(front, groups[n]);
      assert front + [groups[n]] == groups;
      var before := AllFields(front);
      forall a, b | 0 <= a < |before| && 0 <= b < |groups[n].1|
        ensures before[a] != groups[n].1[b]
      {
        assert before[a] in before;
        var m :| 0 <= m < n && before[a] in front[m].1;
        var c :| 0 <= c < |groups[m].1| && groups[m].1[c] == before[a];
      }
      DistinctAppend(before, groups[n].1);
    }
  }

  /** Each group of the taxonomy lists its fields once. */
  lemma ConcreteGroupsDistinct()
    ensures forall k :: 0 <= k < |Groups| ==> Distinct(Groups[k].1)
  {
    forall k | 0 <= k < |Groups|
      ensures Distinct(Groups[k].1)
    {
      if k == 0 {
        MetadataFieldsDistinct();
      } else if k == 1 {
        PropertiesFieldsDistinct();
      } else if k == 2 {
        DownloadsFieldsDistinct();
      } else if k == 3 {
        RegistryFieldsDistinct();
      } else if k == 4 {
        MiriamFieldsDistinct();
      } else if k == 5 {
        AttributionFieldsDistinct();
      } else if k == 6 {
        OntologyFieldsDistinct();
      } else {
        ProvenanceFieldsDistinct();
      }
    }
  }

  /** No field of the taxonomy is listed by two groups. */
  lemma ConcreteGroupsApart()
    ensures forall m, k :: 0 <= m < k < |Groups| ==> Disjoint(Groups[m].1, Groups[k].1)
  {
    forall m, k | 0 <= m < k < |Groups|
      ensures Disjoint(Groups[m].1, Groups[k].1)
    {
      if m == 0 && k == 1 {
        MetadataPropertiesDisjoint();
      } else if m == 0 && k == 2 {
        MetadataDownloadsDisjoint();
      } else if m == 1 && k == 2 {
        PropertiesDownloadsDisjoint();
      } else if m == 0 && k == 3 {
        MetadataRegistryDisjoint();
      } else if m == 1 && k == 3 {
        PropertiesRegistryDisjoint();
      } else if m == 2 && k == 3 {
        DownloadsRegistryDisjoint();
      } else if m == 0 && k == 4 {
        MetadataMiriamDisjoint();
      } else if m == 1 && k == 4 {
        PropertiesMiriamDisjoint();
      } else if m == 2 && k == 4 {
        DownloadsMiriamDisjoint();
      } else if m == 3 && k == 4 {
        RegistryMiriamDisjoint();
      } else if m == 0 && k == 5 {
        MetadataAttributionDisjoint();
      } else if m == 1 && k == 5 {
        PropertiesAttributionDisjoint();
      } else if m == 2 && k == 5 {
        DownloadsAttributionDisjoint();
      } else if m == 3 && k == 5 {
        RegistryAttributionDisjoint();
      } else if m == 4 && k == 5 {
        MiriamAttributionDisjoint();
      } else if m == 0 && k == 6 {
        MetadataOntologyDisjoint();
      } else if m == 1 && k == 6 {
        PropertiesOntologyDisjoint();
      } else if m == 2 && k == 6 {
        DownloadsOntologyDisjoint();
      } else if m == 3 && k == 6 {
        RegistryOntologyDisjoint();
      } else if m == 4 && k == 6 {
        MiriamOntologyDisjoint();
      } else if m == 5 && k == 6 {
        AttributionOntologyDisjoint();
      } else if m == 0 && k == 7 {
        MetadataProvenanceDisjoint();
      } else if m == 1 && k == 7 {
        PropertiesProvenanceDisjoint();
      } else if m == 2 && k == 7 {
        DownloadsProvenanceDisjoint();
      } else if m == 3 && k == 7 {
        RegistryProvenanceDisjoint();
      } else if m == 4 && k == 7 {
        MiriamProvenanceDisjoint();
      } else if m == 5 && k == 7 {
        AttributionProvenanceDisjoint();
      } else if m == 6 && k == 7 {
        OntologyProvenanceDisjoint();
      }
    }
  }

  /** Groups named in the order `order` lists them have exactly those names as keys. */
  lemma KeysInOrder(groups: seq<(string, seq<string>)>, order: seq<string>)
    requires |groups| == |order|
    requires forall k :: 0 <= k < |groups| ==> groups[k].0 == order[k]
    ensures KeySet(groups) == ToSet(order)
  {
    forall g | g in ToSet(order)
      ensures g in KeySet(groups)
    {
      var k :| 0 <= k < |order| && order[k] == g;
      assert groups[k] in groups;
    }
  }

  /** `group_order` names exactly the groups of the dictionary. */
  lemma ConcreteGroupKeys()
    ensures KeySet(Groups) == ToSet(GroupOrder)
  {
    KeysInOrder(Groups, GroupOrder);
  }

  /** The taxonomy of lines 12-48 raises neither ValueError nor KeyError. */
  lemma ConcreteTaxonomyChecks()
    ensures KeySet(Groups) == ToSet(GroupOrder)
    ensures Distinct(AllFields(Groups))
  {
    ConcreteGroupKeys();
    ConcreteGroupsDistinct();
    ConcreteGroupsApart();
    DistinctAllFields(Groups);
  }

  /** Loading the module: the checks pass and `rv` inverts the taxonomy. */
  method LoadTaxonomy() returns (rv: map<string, string>)
    ensures TaxonomyLoaded(GroupOrder, Groups, rv)
  {
    ConcreteTaxonomyChecks();
    var r := CheckTaxonomy(GroupOrder, Groups);
    match r {
      case Success(loaded) => rv := loaded;
      case Failure(GroupOrderMismatch) => assert false;
      case Failure(DuplicateField) => assert false;
    }
  }

  /** For instance `example_extras` is documented under "registry". */
  lemma ExampleExtrasIsRegistry(rv: map<string, string>)
    requires IsInverse(Groups, rv)
    ensures "example_extras" in rv && rv["example_extras"] == "registry"
  {
    assert Groups[3].1[4] == "example_extras";
  }

  /** `main` as the program runs it: load the module, then classify and render. */
  method GenerateSchemaDocs(fields: seq<Field>) returns (r: Result<seq<Section>, RenderError>)
    ensures r == RenderSpec(GroupOrder, Groups, fields)
  {
    var rv := LoadTaxonomy();
    r := Summarize(GroupOrder, Groups, rv, fields);
  }

  // ---------------------------------------------------------------------------
  // Properties of the generated document

  /** The schema's fields without those typed `Any`. */
  function WithoutAny(fields: seq<Field>): (r: seq<Field>)
    ensures forall f :: f in r <==> f in fields && !f.isAny
  {
    if fields == [] then []
    else
      var last := fields[|fields| - 1];
      WithoutAny(fields[..|fields| - 1]) + if last.isAny then [] else [last]
  }

  lemma {:induction false} DocumentedIgnoresAny(fields: seq<Field>, name: string)
    ensures Documented(WithoutAny(fields), name) == Documented(fields, name)
    decreases |fields|
  {
    if fields != [] {
      var front, last := fields[..|fields| - 1], fields[|fields| - 1];
      DocumentedIgnoresAny(front, name);
      if last.isAny {
        assert WithoutAny(fields) == WithoutAny(front);
      } else {
        var w := WithoutAny(front) + [last];
        assert WithoutAny(fields) == w;
        assert w[..|w| - 1] == WithoutAny(front);
      }
    }
  }

  lemma {:induction false} FirstUncategorizedSnoc(fields: seq<Field>, f: Field, known: set<string>)
    ensures FirstUncategorized(fields + [f], known) ==
      if FirstUncategorized(fields, known).Some? then FirstUncategorized(fields, known)
      else if !f.isAny && f.name !in known then Some(f.name)
      else None
    decreases |fields|
  {
    if fields == [] {
      assert [f][1..] == [];
    } else {
      assert (fields + [f])[0] == fields[0];
      assert (fields + [f])[1..] == fields[1..] + [f];
      FirstUncategorizedSnoc(fields[1..], f, known);
    }
  }

  lemma {:induction false} FirstUncategorizedIgnoresAny(fields: seq<Field>, known: set<string>)
    ensures FirstUncategorized(WithoutAny(fields), known) == FirstUncategorized(fields, known)
    decreases |fields|
  {
    if fields != [] {
      var front, last := fields[..|fields| - 1], fields[|fields| - 1];
      assert fields == front + [last];
      FirstUncategorizedIgnoresAny(front, known);
      FirstUncategorizedSnoc(front, last, known);
      if last.isAny {
        assert WithoutAny(fields) == WithoutAny(front);
      } else {
        FirstUncategorizedSnoc(WithoutAny(front), last, known);
      }
    }
  }

  lemma {:induction false} RowsAgree(names: seq<string>, f1: seq<Field>, f2: seq<Field>)
    requires forall n :: Documented(f1, n) == Documented(f2, n)
    ensures GroupRows(names, f1) == GroupRows(names, f2)
    decreases |names|
  {
    if names != [] {
      RowsAgree(names[..|names| - 1], f1, f2);
      assert RowFor(f1, names[|names| - 1]) == RowFor(f2, names[|names| - 1]);
    }
  }

  lemma {:induction false} SectionsAgree(groupOrder: seq<string>, groups: seq<(string, seq<string>)>,
                                         f1: seq<Field>, f2: seq<Field>)
    requires forall n :: Documented(f1, n) == Documented(f2, n)
    ensures RenderSections(groupOrder, groups, f1) == RenderSections(groupOrder, groups, f2)
    decreases |groupOrder|
  {
    if groupOrder != [] {
      SectionsAgree(groupOrder[..|groupOrder| - 1], groups, f1, f2);
      var group := groupOrder[|groupOrder| - 1];
      if LookupGroup(groups, group).Some? {
        RowsAgree(LookupGroup(groups, group).value, f1, f2);
      }
    }
  }

  /**
   * Fields typed `Any` are skipped (line 63): removing them from the schema
   * changes nothing in the outcome.
   */
  lemma AnyFieldsDoNotMatter(groupOrder: seq<string>, groups: seq<(string, seq<string>)>, fields: seq<Field>)
    ensures RenderSpec(groupOrder, groups, WithoutAny(fields)) == RenderSpec(groupOrder, groups, fields)
  {
    FirstUncategorizedIgnoresAny(fields, ToSet(AllFields(groups)));
    forall n {
      DocumentedIgnoresAny(fields, n);
    }
    SectionsAgree(groupOrder, groups, WithoutAny(fields), fields);
  }

  /** Every field not typed `Any` is listed in some group. */
  predicate AllCategorized(fields: seq<Field>, known: set<string>)
  {
    forall k :: 0 <= k < |fields| ==> !Uncategorized(fields, known, k)
  }

  /** Every group in `groupOrder` has an entry, and each field it lists is documentable. */
  predicate AllGroupsDocumentable(groupOrder: seq<string>, groups: seq<(string, seq<string>)>, fields: seq<Field>)
  {
    forall k :: 0 <= k < |groupOrder| ==>
      && LookupGroup(groups, groupOrder[k]).Some?
      && forall j :: 0 <= j < |LookupGroup(groups, groupOrder[k]).value| ==>
           Documentable(fields, LookupGroup(groups, groupOrder[k]).value[j])
  }

  /** `main` completes exactly when every field is categorized and every listed field documentable. */
  lemma RenderSucceedsIff(groupOrder: seq<string>, groups: seq<(string, seq<string>)>, fields: seq<Field>)
    ensures RenderSpec(groupOrder, groups, fields).Success? <==>
              AllCategorized(fields, ToSet(AllFields(groups))) && AllGroupsDocumentable(groupOrder, groups, fields)
  {
  }

  /**
   * The document's layout: one section per group, in `group_order`, headed by
   * the title-cased group name, holding one row per listed field in order.
   */
  lemma RenderedLayout(groupOrder: seq<string>, groups: seq<(string, seq<string>)>, fields: seq<Field>,
                       sections: seq<Section>)
    requires RenderSpec(groupOrder, groups, fields) == Success(sections)
    ensures |sections| == |groupOrder|
    ensures forall k :: 0 <= k < |groupOrder| ==>
              && LookupGroup(groups, groupOrder[k]).Some?
              && sections[k].heading == "## " + TitleCase(groupOrder[k])
              && |sections[k].rows| == |LookupGroup(groups, groupOrder[k]).value|
    ensures forall k, j :: 0 <= k < |groupOrder| && 0 <= j < |sections[k].rows| ==>
              var name := LookupGroup(groups, groupOrder[k]).value[j];
              var f := Documented(fields, name).value;
              sections[k].rows[j] == (TitleOf(f.title, name), CleanDescription(f.description.value))
  {
  }

  /**
   * With no fields at all, every group that lists a field fails with a
   * missing field: the document is produced only if every group is empty.
   */
  lemma EmptySchema(groupOrder: seq<string>, groups: seq<(string, seq<string>)>)
    requires ToSet(groupOrder) <= KeySet(groups)
    ensures RenderSpec(groupOrder, groups, []).Success? <==>
              forall k :: 0 <= k < |groupOrder| ==> LookupGroup(groups, groupOrder[k]) == Some([])
    ensures RenderSpec(groupOrder, groups, []).Failure? ==> RenderSpec(groupOrder, groups, []).error.MissingField?
  {
  }

  /** The title of a field declared without one. */
  lemma DerivedTitleExample(name: string)
    requires name == "example_extras"
    ensures TitleOf(None, name) == "Example Extras"
  {
    var spaced := ReplaceChar(name, '_', ' ');
    assert forall i :: 0 <= i < |name| ==> spaced[i] == "example extras"[i];
    assert spaced == "example extras";
    TitleCaseExample();
  }

  /** A blank line inside a description becomes a single space. */
  lemma BlankLineExample()
    ensures CleanDescription("a\n\nb") == "a b"
  {
    assert ReplaceChar("a\n\nb", '\n', ' ') == "a  b";
    SquashAppend("a", "  b");
    SquashRun(2, "b");
    assert "  b" == Spaces(2) + "b";
    SquashShortensIff("a");
    SquashShortensIff("b");
  }
}
