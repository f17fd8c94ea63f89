/**
 * `count_multipart`: scan a feature class for multipart geometries, keep a
 * dict from object id to part count, and unless only reporting, (re)create
 * the count field and write each multipart row's count into it.
 */
module Multipart {
  import opened Options
  import opened PyDict
  import opened Sql
  import opened Dataset

  datatype Outcome =
    | NotFound        // the path names no feature class
    | Unsupported     // the feature class holds MultiPatch geometries
    | NoneFound       // no multipart rows: nothing to do
    | Reported(count: nat)
    | FieldExists     // the field is present and overwrite is off
    | SchemaError     // the field could not be deleted or added
    | Updated(count: nat)

  predicate IsMultipartRow(r: Row) {
    r.shape.Some? && r.shape.value.isMultipart
  }

  /** The fields the scan reads: the object id and the geometry. */
  const ScanFields: seq<string> := [IdToken, ShapeToken]

  lemma ScanFieldsDistinct()
    ensures Distinct(ScanFields)
  {
    assert |IdToken| != |ShapeToken|;
  }

  /** One step of the dict comprehension: a row with a non-null multipart
      geometry contributes `oid: partCount`, any other row nothing. */
  function ScanStep(acc: Dict<int, nat>, d: Dict<string, Value>): (r: Dict<int, nat>)
    requires HasKey(d, IdToken) && HasKey(d, ShapeToken) && Get(d, IdToken).Int?
    ensures WellFormed(acc) ==> WellFormed(r)
    ensures |acc| <= |r| <= |acc| + 1
    ensures forall j :: 0 <= j < |acc| ==> HasKey(r, acc[j].0)
  {
    match Get(d, ShapeToken)
    case Shape(g) => if g.isMultipart then Set(acc, Get(d, IdToken).i, g.partCount) else acc
    case _ => acc
  }

  /** `{row[id]: row[shape].partCount for row in get_rows([id, shape]) if
      row[shape] and row[shape].isMultipart}` over the rows of a feature class. */
  function PartCounts(desc: Describe, rows: seq<Row>): (counts: Dict<int, nat>)
    ensures WellFormed(counts)
  {
    if |rows| == 0 then []
    else
      var d := Project(desc, rows[|rows| - 1], ScanFields);
      ScanFieldsDistinct();
      assert Keys(d) == ScanFields;
      assert Get(d, ScanFields[0]) == Int(rows[|rows| - 1].oid);
      ScanStep(PartCounts(desc, rows[..|rows| - 1]), d)
  }

  /** Whether every dict carries the two scanned fields, the id as an integer. */
  predicate ScanReady(ds: seq<Dict<string, Value>>) {
    forall i :: 0 <= i < |ds| ==>
      HasKey(ds[i], IdToken) && HasKey(ds[i], ShapeToken) && Get(ds[i], IdToken).Int?
  }

  /** The comprehension over a sequence of row dicts, in order. */
  function ScanDicts(ds: seq<Dict<string, Value>>): Dict<int, nat>
    requires ScanReady(ds)
  {
    if |ds| == 0 then [] else ScanStep(ScanDicts(ds[..|ds| - 1]), ds[|ds| - 1])
  }

  /** Every dict `get_rows([OID@, SHAPE@])` yields carries the two fields,
      the id as an integer. */
  lemma GetRowsScanReady(desc: Describe, rows: seq<Row>)
    ensures ScanReady(GetRows(desc, rows, ScanFields, None))
  {
    var ds: seq<Dict<string, Value>> := GetRows(desc, rows, ScanFields, None);
    GetRowsAll(desc, rows, ScanFields);
    ScanFieldsDistinct();
    forall i | 0 <= i < |ds|
      ensures HasKey(ds[i], IdToken) && HasKey(ds[i], ShapeToken) && Get(ds[i], IdToken).Int?
    {
      assert Keys(ds[i]) == ScanFields;
      assert Get(ds[i], ScanFields[0]) == Int(rows[i].oid);
    }
  }

  /** `PartCounts` is the comprehension over exactly the dicts that
      `get_rows([OID@, SHAPE@])` yields. */
  lemma PartCountsOverGetRows(desc: Describe, rows: seq<Row>)
    requires DescribeWellFormed(desc)
    ensures ScanReady(GetRows(desc, rows, ScanFields, None))
    ensures PartCounts(desc, rows) == ScanDicts(GetRows(desc, rows, ScanFields, None))
  {
    GetRowsScanReady(desc, rows);
    GetRowsAll(desc, rows, ScanFields);
    ScanOfProjections(desc, rows, GetRows(desc, rows, ScanFields, None));
    ScanIsMultipartCounts(desc, rows);
  }

  /** The comprehension over the rows projected one by one builds the
      reference dict. */
  lemma {:induction false} ScanOfProjections(desc: Describe, rows: seq<Row>, ds: seq<Dict<string, Value>>)
    requires DescribeWellFormed(desc)
    requires ScanReady(ds) && |ds| == |rows|
    requires forall i :: 0 <= i < |rows| ==> ds[i] == Project(desc, rows[i], ScanFields)
    ensures ScanDicts(ds) == MultipartCounts(rows)
  {
    if |rows| > 0 {
      var n := |rows| - 1;
      assert ScanReady(ds[..n]);
      assert forall i :: 0 <= i < n ==> ds[..n][i] == Project(desc, rows[..n][i], ScanFields);
      ScanOfProjections(desc, rows[..n], ds[..n]);
      ScanStepSpec(desc, MultipartCounts(rows[..n]), rows[n]);
      assert ds[n] == Project(desc, rows[n], ScanFields);
    }
  }

  /** The object ids of the multipart rows, in row order. */
  function MultipartOids(rows: seq<Row>): (oids: seq<int>)
    ensures forall x :: x in oids <==> exists i :: 0 <= i < |rows| && rows[i].oid == x && IsMultipartRow(rows[i])
  {
    if |rows| == 0 then []
    else
      var init := rows[..|rows| - 1];
      var rest := MultipartOids(init);
      assert forall i :: 0 <= i < |init| ==> init[i] == rows[i];
      rest + if IsMultipartRow(rows[|rows| - 1]) then [rows[|rows| - 1].oid] else []
  }

  /** One row of the scan: a multipart row adds its id and part count,
      any other row leaves the dict as it was. */
  lemma ScanStepSpec(desc: Describe, prev: Dict<int, nat>, last: Row)
    requires DescribeWellFormed(desc)
    ensures var d := Project(desc, last, ScanFields);
      HasKey(d, IdToken) && HasKey(d, ShapeToken) && Get(d, IdToken).Int? &&
      ScanStep(prev, d) == CountRow(prev, last)
  {
    var d := Project(desc, last, ScanFields);
    ScanFieldsDistinct();
    assert Keys(d) == ScanFields;
    assert Get(d, ScanFields[0]) == Int(last.oid);
    assert Get(d, ScanFields[1]) == Lookup(desc, last, ShapeToken);
    assert !IsIdField(desc, ShapeToken) by { assert |ShapeToken| != |IdToken|; }
    if last.shape.Some? {
      assert Get(d, ShapeToken) == Shape(last.shape.value);
    } else {
      assert Get(d, ShapeToken) == Null;
    }
  }

  /** The scan's effect of one row, stated on the row itself. */
  function CountRow(prev: Dict<int, nat>, row: Row): Dict<int, nat> {
    if IsMultipartRow(row) then Set(prev, row.oid, row.shape.value.partCount) else prev
  }

  /** The dict the scan builds, defined on the rows directly: each multipart
      row, in order, assigns its part count to its id. */
  function MultipartCounts(rows: seq<Row>): (counts: Dict<int, nat>)
    ensures WellFormed(counts)
  {
    if |rows| == 0 then []
    else CountRow(MultipartCounts(rows[..|rows| - 1]), rows[|rows| - 1])
  }

  /** The scan through dicts projected over `[OID@, SHAPE@]` builds exactly
      the dict `MultipartCounts` describes. */
  lemma {:induction false} ScanIsMultipartCounts(desc: Describe, rows: seq<Row>)
    requires DescribeWellFormed(desc)
    ensures PartCounts(desc, rows) == MultipartCounts(rows)
  {
    if |rows| > 0 {
      var n := |rows| - 1;
      ScanIsMultipartCounts(desc, rows[..n]);
      ScanStepSpec(desc, PartCounts(desc, rows[..n]), rows[n]);
    }
  }

  /** The dict's keys are exactly the ids of the multipart rows, in row
      order, and each maps to that row's part count; single-part rows and
      rows with a null geometry are absent. */
  lemma {:induction false} MultipartCountsSpec(rows: seq<Row>)
    requires UniqueOids(rows)
    ensures Keys(MultipartCounts(rows)) == MultipartOids(rows)
    ensures forall i :: 0 <= i < |rows| && IsMultipartRow(rows[i]) ==>
      HasKey(MultipartCounts(rows), rows[i].oid) &&
      Get(MultipartCounts(rows), rows[i].oid) == rows[i].shape.value.partCount
  {
    if |rows| > 0 {
      var n := |rows| - 1;
      var init, last := rows[..n], rows[n];
      assert UniqueOids(init);
      MultipartCountsSpec(init);
      var prev := MultipartCounts(init);
      var counts := MultipartCounts(rows);
      assert counts == CountRow(prev, last);
      assert last.oid !in MultipartOids(init) by {
        assert forall i :: 0 <= i < n ==> init[i].oid != last.oid;
      }
      assert Keys(counts) == MultipartOids(rows);
      forall i | 0 <= i < n && IsMultipartRow(rows[i])
        ensures HasKey(counts, rows[i].oid)
        ensures Get(counts, rows[i].oid) == rows[i].shape.value.partCount
      {
        assert init[i] == rows[i];
        assert Keys(prev)[IndexOf(prev, rows[i].oid)] == rows[i].oid;
      }
    }
  }

  /** Only multipart rows have their id among the dict's keys. */
  lemma KeysAreMultipart(rows: seq<Row>)
    requires UniqueOids(rows)
    ensures forall i :: 0 <= i < |rows| ==>
      (HasKey(MultipartCounts(rows), rows[i].oid) <==> IsMultipartRow(rows[i]))
  {
    MultipartCountsSpec(rows);
    forall i | 0 <= i < |rows| && HasKey(MultipartCounts(rows), rows[i].oid)
      ensures IsMultipartRow(rows[i])
    {
      var j :| 0 <= j < |rows| && rows[j].oid == rows[i].oid && IsMultipartRow(rows[j]);
      assert i == j;
    }
  }

  /** The multipart rows, in row order. */
  function MultipartRows(rows: seq<Row>): (mp: seq<Row>)
    ensures forall r :: r in mp ==> r in rows && IsMultipartRow(r)
    ensures forall i :: 0 <= i < |rows| && IsMultipartRow(rows[i]) ==> rows[i] in mp
  {
    if |rows| == 0 then []
    else
      var last := rows[|rows| - 1];
      assert forall i :: 0 <= i < |rows| - 1 ==> rows[..|rows| - 1][i] == rows[i];
      MultipartRows(rows[..|rows| - 1]) + if IsMultipartRow(last) then [last] else []
  }

  lemma {:induction false} SelectedByMultipart(desc: Describe, rows: seq<Row>, query: string)
    requires forall i :: 0 <= i < |rows| ==>
      (SelectsOid(query, desc.oidFieldName, rows[i].oid) <==> IsMultipartRow(rows[i]))
    ensures Selected(desc, rows, Some(query)) == MultipartRows(rows)
  {
    if |rows| > 0 {
      var n := |rows| - 1;
      assert forall i :: 0 <= i < n ==> rows[..n][i] == rows[i];
      SelectedByMultipart(desc, rows[..n], query);
    }
  }

  /** The update clause built from the scan's keys makes the update cursor
      visit exactly the multipart rows, in row order. */
  lemma UpdateQuerySelectsMultipart(desc: Describe, rows: seq<Row>)
    requires DescribeWellFormed(desc) && UniqueOids(rows)
    requires |PartCounts(desc, rows)| > 0
    ensures var query := InQuery(desc.oidFieldName, Keys(PartCounts(desc, rows)));
      Selected(desc, rows, Some(query)) == MultipartRows(rows)
  {
    var keys := Keys(PartCounts(desc, rows));
    var query := InQuery(desc.oidFieldName, keys);
    ScanIsMultipartCounts(desc, rows);
    InQueryRoundTrip(desc.oidFieldName, keys);
    KeysAreMultipart(rows);
    SelectedByMultipart(desc, rows, query);
  }

  /** How many distinct object ids the scan found; `len(multipart_counts)`. */
  lemma CountIsMultipartRows(desc: Describe, rows: seq<Row>)
    requires DescribeWellFormed(desc) && UniqueOids(rows)
    ensures |PartCounts(desc, rows)| == |MultipartOids(rows)|
    ensures |PartCounts(desc, rows)| == 0 <==> forall i :: 0 <= i < |rows| ==> !IsMultipartRow(rows[i])
  {
    ScanIsMultipartCounts(desc, rows);
    MultipartCountsSpec(rows);
    if |MultipartOids(rows)| > 0 {
      assert MultipartOids(rows)[0] in MultipartOids(rows);
    }
  }

  /** The rows after the update: each row whose id is a key gets its count in
      field `name`; every other row is left as it is. */
  function ApplyCounts(rows: seq<Row>, name: string, counts: Dict<int, nat>): (r: seq<Row>)
    ensures |r| == |rows|
    ensures forall i :: 0 <= i < |rows| ==> r[i] == CountedRow(rows[i], name, counts)
  {
    seq(|rows|, i requires 0 <= i < |rows| => CountedRow(rows[i], name, counts))
  }

  /** One row after the update: its count written if its id is a key. */
  function CountedRow(row: Row, name: string, counts: Dict<int, nat>): Row {
    if HasKey(counts, row.oid)
    then row.(attrs := row.attrs[name := Int(Get(counts, row.oid))])
    else row
  }

  /** What a successful run leaves in the rows: the field created afresh
      (null everywhere), then the counts written. */
  function UpdatedRows(rows: seq<Row>, name: string): (r: seq<Row>)
    ensures |r| == |rows|
    ensures forall i :: 0 <= i < |rows| ==>
      r[i].oid == rows[i].oid && r[i].shape == rows[i].shape && r[i].attrs.Keys == rows[i].attrs.Keys + {name}
  {
    ApplyCounts(AddColumn(rows, name), name, MultipartCounts(rows))
  }

  /** What a successful run leaves in the field list: the field removed if it
      was there, then appended as a short integer field. */
  function UpdatedFields(fields: seq<Field>, name: string): (r: seq<Field>)
    ensures forall f :: f in r <==> (f in fields && f.name != name) || f == Field(name, ShortType)
  {
    RemoveField(fields, name) + [Field(name, ShortType)]
  }

  /** After a successful run, each multipart row holds its part count in the
      field, every other row holds null there, and nothing else in any row
      has changed. */
  lemma UpdatedRowsSpec(rows: seq<Row>, name: string)
    requires UniqueOids(rows)
    ensures |UpdatedRows(rows, name)| == |rows|
    ensures forall i :: 0 <= i < |rows| ==>
      var u := UpdatedRows(rows, name)[i];
      u.oid == rows[i].oid && u.shape == rows[i].shape &&
      u.attrs == rows[i].attrs[name := if IsMultipartRow(rows[i]) then Int(rows[i].shape.value.partCount) else Null]
  {
    MultipartCountsSpec(rows);
    KeysAreMultipart(rows);
  }

  /** The count field appears exactly once after a successful run: as the
      last field, and nowhere before it. */
  lemma UpdatedFieldOnce(fields: seq<Field>, name: string)
    ensures var ns := Names(UpdatedFields(fields, name));
      |ns| > 0 && ns[|ns| - 1] == name && name !in ns[..|ns| - 1]
  {
    var r := RemoveField(fields, name);
    assert Names(UpdatedFields(fields, name))[..|r|] == Names(r);
  }

  /** Running the update twice with overwrite on leaves the same rows as
      running it once. */
  lemma RerunRowsIdempotent(rows: seq<Row>, name: string)
    requires UniqueOids(rows)
    ensures UpdatedRows(UpdatedRows(rows, name), name) == UpdatedRows(rows, name)
  {
    var once := UpdatedRows(rows, name);
    UpdatedRowsSpec(rows, name);
    assert UniqueOids(once);
    UpdatedRowsSpec(once, name);
    var twice := UpdatedRows(once, name);
    forall i | 0 <= i < |rows| ensures twice[i] == once[i] {
      var x := if IsMultipartRow(rows[i]) then Int(rows[i].shape.value.partCount) else Null;
      assert once[i].attrs == rows[i].attrs[name := x];
      assert twice[i].attrs == once[i].attrs[name := x];
    }
  }

  /** Running the update twice with overwrite on leaves the same field list
      as running it once. */
  lemma RerunFieldsIdempotent(fields: seq<Field>, name: string)
    ensures UpdatedFields(UpdatedFields(fields, name), name) == UpdatedFields(fields, name)
  {
    RemoveFieldAppend(RemoveField(fields, name), Field(name, ShortType), name);
    RemoveFieldAbsent(RemoveField(fields, name), name);
  }

  lemma {:induction false} RemoveFieldAppend(fields: seq<Field>, f: Field, name: string)
    requires f.name == name
    ensures RemoveField(fields + [f], name) == RemoveField(fields, name)
  {
    if |fields| == 0 {
      assert fields + [f] == [f];
      assert [f][1..] == [];
    } else {
      assert (fields + [f])[1..] == fields[1..] + [f];
      RemoveFieldAppend(fields[1..], f, name);
    }
  }

  /** Writing counts into an attribute field keeps a feature class consistent. */
  lemma ConsistentAfterApply(desc: Describe, fields: seq<Field>, rows: seq<Row>, name: string, counts: Dict<int, nat>)
    requires Consistent(desc, fields, rows)
    requires name in AttributeNames(desc, fields)
    ensures Consistent(desc, fields, ApplyCounts(rows, name, counts))
  {
    var r := ApplyCounts(rows, name, counts);
    assert forall i :: 0 <= i < |rows| ==> r[i].oid == rows[i].oid && r[i].attrs.Keys == rows[i].attrs.Keys;
  }

  /** The update cursor's loop body on one selected row: project it over
      `[OID@, name]`, set `row[name]` from the dict, commit the values. */
  function UpdateRow(desc: Describe, row: Row, name: string, counts: Dict<int, nat>): (r: Row)
    requires IsAttribute(desc, name) && name in row.attrs && HasKey(counts, row.oid)
    ensures r == row.(attrs := row.attrs[name := Int(Get(counts, row.oid))])
  {
    var fs := [IdToken, name];
    var d := Project(desc, row, fs);
    assert Get(d, fs[0]) == Int(row.oid);
    var oid := Get(d, IdToken).i;
    CommitAssigned(desc, row, fs, name, Int(Get(counts, oid)));
    Commit(desc, row, fs, Values(Set(d, name, Int(Get(counts, oid)))))
  }

  /** Lines 116-123: build the `IN` clause from the dict's keys, then update
      every row the clause selects, in row order. */
  method WriteCounts(feature: Feature, name: string, counts: Dict<int, nat>)
    requires feature.Valid()
    requires name in AttributeNames(feature.desc, feature.fields)
    requires |counts| > 0
    modifies feature.rows
    ensures feature.Valid()
    ensures feature.rows[..] == ApplyCounts(old(feature.rows[..]), name, counts)
  {
    ghost var before := feature.rows[..];
    assert forall j :: 0 <= j < feature.rows.Length ==> name in feature.rows[j].attrs;
    var query := InQuery(feature.desc.oidFieldName, Keys(counts));
    InQueryRoundTrip(feature.desc.oidFieldName, Keys(counts));
    UpdateSelected(feature, name, counts, query);
    ConsistentAfterApply(feature.desc, feature.fields, before, name, counts);
  }

  /** Lines 120-123: the update cursor with where-clause `query`; each row it
      visits gets its count from the dict. The clause must select exactly the
      ids that are keys of the dict, which `InQuery` guarantees. */
  method UpdateSelected(feature: Feature, name: string, counts: Dict<int, nat>, query: string)
    requires IsAttribute(feature.desc, name)
    requires forall j :: 0 <= j < feature.rows.Length ==> name in feature.rows[j].attrs
    requires forall oid :: SelectsOid(query, feature.desc.oidFieldName, oid) <==> HasKey(counts, oid)
    modifies feature.rows
    ensures feature.rows[..] == ApplyCounts(old(feature.rows[..]), name, counts)
  {
    ghost var before := feature.rows[..];
    for i := 0 to feature.rows.Length
      invariant forall j :: 0 <= j < i ==> feature.rows[j] == CountedRow(before[j], name, counts)
      invariant forall j :: i <= j < feature.rows.Length ==> feature.rows[j] == before[j]
    {
      VisitRow(feature, i, name, counts, query);
    }
    assert feature.rows[..] == ApplyCounts(before, name, counts);
  }

  /** Lines 121-123 for the row at position `i`: if the where-clause selects
      it, set its count from the dict and commit it. */
  method VisitRow(feature: Feature, i: nat, name: string, counts: Dict<int, nat>, query: string)
    requires i < feature.rows.Length
    requires IsAttribute(feature.desc, name) && name in feature.rows[i].attrs
    requires forall oid :: SelectsOid(query, feature.desc.oidFieldName, oid) <==> HasKey(counts, oid)
    modifies feature.rows
    ensures feature.rows[i] == CountedRow(old(feature.rows[i]), name, counts)
    ensures forall j :: 0 <= j < feature.rows.Length && j != i ==> feature.rows[j] == old(feature.rows[j])
  {
    var row := feature.rows[i];
    if Selects(feature.desc, Some(query), row) {
      feature.rows[i] := UpdateRow(feature.desc, row, name, counts);
    }
  }

  /** Lines 107-111: an existing field is refused unless overwriting, and
      deleted otherwise. Returns the outcome that ends the run, or `None`
      when the name is free. */
  method ClearField(feature: Feature, name: string, overwrite: bool) returns (failure: Option<Outcome>)
    requires feature.Valid()
    modifies feature, feature.rows
    ensures feature.Valid()
    ensures failure == Some(FieldExists) <==> name in old(feature.FieldNames()) && !overwrite
    ensures failure == Some(SchemaError) <==>
      name in old(feature.FieldNames()) && overwrite && !IsAttribute(feature.desc, name)
    ensures failure.None? || failure == Some(FieldExists) || failure == Some(SchemaError)
    ensures failure.Some? || name !in old(feature.FieldNames()) ==>
      unchanged(feature) && unchanged(feature.rows)
    ensures failure.None? ==>
      && name !in feature.FieldNames()
      && feature.fields == RemoveField(old(feature.fields), name)
      && feature.rows[..] ==
           if name in old(feature.FieldNames()) then DropColumn(old(feature.rows[..]), name)
           else old(feature.rows[..])
  {
    if name in feature.FieldNames() {
      if !overwrite {
        return Some(FieldExists);
      }
      var deleted := feature.DeleteField(name);
      if !deleted {
        return Some(SchemaError);
      }
    } else {
      RemoveFieldAbsent(feature.fields, name);
    }
    return None;
  }

  /** Lines 107-113: clear the name, then add the field as a short integer.
      Returns the outcome that ends the run, or `None` when the field is
      ready for the counts. */
  method SetUpField(feature: Feature, name: string, overwrite: bool) returns (failure: Option<Outcome>)
    requires feature.Valid()
    modifies feature, feature.rows
    ensures feature.Valid()
    ensures failure == Some(FieldExists) <==> name in old(feature.FieldNames()) && !overwrite
    ensures failure == Some(SchemaError) <==>
      (name in old(feature.FieldNames()) && overwrite && !IsAttribute(feature.desc, name)) ||
      (name !in old(feature.FieldNames()) && (name == IdToken || name == ShapeToken))
    ensures failure.None? || failure == Some(FieldExists) || failure == Some(SchemaError)
    ensures failure.Some? ==> unchanged(feature) && unchanged(feature.rows)
    ensures failure.None? ==>
      && feature.fields == UpdatedFields(old(feature.fields), name)
      && feature.rows[..] == AddColumn(old(feature.rows[..]), name)
      && name in AttributeNames(feature.desc, feature.fields)
  {
    ghost var rows0 := feature.rows[..];
    ghost var names0 := feature.FieldNames();
    assert IdToken !in names0 && ShapeToken !in names0;
    failure := ClearField(feature, name, overwrite);
    if failure.Some? {
      return;
    }
    ghost var cleared := feature.fields;
    var added := feature.AddField(name, ShortType);
    if !added {
      assert name !in names0;
      return Some(SchemaError);
    }
    DropThenAdd(rows0, name);
    assert feature.rows[..] == AddColumn(rows0, name);
    AppendedAttribute(feature.desc, cleared, name, ShortType);
  }

  /** Lines 105-123 when not only reporting: set up the field, then write
      the counts. */
  method StoreCounts(feature: Feature, name: string, overwrite: bool, counts: Dict<int, nat>)
    returns (outcome: Outcome)
    requires feature.Valid()
    requires |counts| > 0
    modifies feature, feature.rows
    ensures feature.Valid()
    ensures outcome == FieldExists <==> name in old(feature.FieldNames()) && !overwrite
    ensures outcome == SchemaError <==>
      (name in old(feature.FieldNames()) && overwrite && !IsAttribute(feature.desc, name)) ||
      (name !in old(feature.FieldNames()) && (name == IdToken || name == ShapeToken))
    ensures outcome == FieldExists || outcome == SchemaError || outcome == Updated(|counts|)
    ensures !outcome.Updated? ==> unchanged(feature) && unchanged(feature.rows)
    ensures outcome.Updated? ==>
      && feature.fields == UpdatedFields(old(feature.fields), name)
      && feature.rows[..] == ApplyCounts(AddColumn(old(feature.rows[..]), name), name, counts)
  {
    var failure := SetUpField(feature, name, overwrite);
    if failure.Some? {
      return failure.value;
    }
    WriteCounts(feature, name, counts);
    return Updated(|counts|);
  }

  /** `count_multipart(feature_path, field_name=name, overwrite=..., report_only=...)`
      over a catalog of feature classes by path. */
  method CountMultipart(catalog: map<string, Feature>, path: string, name: string, overwrite: bool, reportOnly: bool)
    returns (outcome: Outcome)
    requires path in catalog ==> catalog[path].Valid()
    modifies if path in catalog then {catalog[path], catalog[path].rows} else {}
    ensures path in catalog ==> catalog[path].Valid()
    ensures outcome == NotFound <==> path !in catalog
    ensures path in catalog ==>
      var f := catalog[path];
      var counts := MultipartCounts(old(f.rows[..]));
      var names := old(f.FieldNames());
      var proceeds := f.desc.shapeType != MultiPatch && |counts| > 0 && !reportOnly;
      && (outcome == Unsupported <==> f.desc.shapeType == MultiPatch)
      && (outcome == NoneFound <==> f.desc.shapeType != MultiPatch && |counts| == 0)
      && (outcome.Reported? <==> f.desc.shapeType != MultiPatch && |counts| > 0 && reportOnly)
      && (outcome == FieldExists <==> proceeds && name in names && !overwrite)
      && (outcome == SchemaError <==>
            (proceeds &&
             ((name in names && overwrite && !IsAttribute(f.desc, name)) ||
              (name !in names && (name == IdToken || name == ShapeToken)))))
      && (outcome.Updated? <==>
            (proceeds &&
             if name in names then overwrite && IsAttribute(f.desc, name)
             else name != IdToken && name != ShapeToken))
      && (outcome.Reported? || outcome.Updated? ==> outcome.count == |counts|)
    ensures path in catalog && !outcome.Updated? ==>
      unchanged(catalog[path]) && unchanged(catalog[path].rows)
    ensures path in catalog && outcome.Updated? ==>
      var f := catalog[path];
      && f.fields == UpdatedFields(old(f.fields), name)
      && f.rows[..] == UpdatedRows(old(f.rows[..]), name)
  {
    if path !in catalog {
      return NotFound;
    }
    var feature := catalog[path];
    if feature.desc.shapeType == MultiPatch {
      return Unsupported;
    }
    var counts := PartCounts(feature.desc, feature.rows[..]);
    ScanIsMultipartCounts(feature.desc, feature.rows[..]);
    if |counts| == 0 {
      return NoneFound;
    }
    if reportOnly {
      return Reported(|counts|);
    }
    outcome := StoreCounts(feature, name, overwrite, counts);
  }
}
