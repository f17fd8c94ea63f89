# count_multipart, modelled in Dafny

The script `count_multipart_features_2.py` adds a short-integer field to an
ArcGIS feature class and fills it with the number of parts of every multipart
geometry. Its core is the `Feature` wrapper around `arcpy.da.Describe` and
the cursors, and the function `count_multipart`. The model covers both:

- **options.dfy** (`Options`): the `Option` type.
- **pydict.dfy** (`PyDict`): a Python `dict` as an insertion-ordered list of
  pairs. It covers `d[k] = v`, `list(d.keys())`, `list(d.values())`,
  `len(d)` and `dict(zip(ks, vs))`.
- **text.dfy** (`Text`): `str` on an integer and `','.join`, with the
  inverses used to read the where-clause back (decimal parsing, splitting).
- **sql.dfy** (`Sql`): the update cursor's where-clause
  `<OID field> IN (k1,k2,...)`, and the reading of it that decides which rows
  a cursor visits.
- **dataset.dfy** (`Dataset`): a feature class in memory.
  - The describe snapshot: catalog path, base name, workspace, shape type, and
    the native OID and shape field names.
  - A `Feature` class with a field list and an array of rows.
  - The cursor conventions: a row comes out as `dict(zip(cursor.fields, row))`
    and goes back through `updateRow(list(row.values()))`. The tokens
    `OID@` and `SHAPE@` address the object id and the geometry.
  - `DeleteField_management` and `AddField_management` as methods that update
    the field list and the rows in place.
- **multipart.dfy** (`Multipart`): `count_multipart` itself.
  - The dict comprehension that scans the rows for multipart geometries.
  - The three guarded exits: no multipart rows, report-only, and the field
    already present without overwrite.
  - Deleting and re-adding the field.
  - The `IN` clause.
  - The update loop over the array of rows.
- **scenario.dfy** (`Scenario`): two runs on a three-row polygon class. The
  first adds `PartCount` and fills ids 2 and 3. The second finds `PartCount`
  already present without overwrite and changes nothing.

Outcomes. `count_multipart` raises `ValueError` or prints a message. The model
returns an `Outcome` instead:
- `NotFound`: the path is not in the catalog (`arcpy.Exists`).
- `Unsupported`: the shape type is MultiPatch.
- `NoneFound`: no multipart rows.
- `Reported(n)`: report-only mode.
- `FieldExists`: the field is present and overwrite is off.
- `SchemaError`: arcpy refuses to delete or add the field.
- `Updated(n)`: the counts were written.

`SchemaError` covers:
- deleting the OID or shape field itself, which is possible when overwrite is
  on and the field name equals one of them;
- adding a field named like a cursor token (`OID@`, `SHAPE@`).

Each row's dict is projected through `PyDict` exactly as the source builds
it. The scan is stated twice:
- `PartCounts` follows the comprehension through the projected dicts.
- `MultipartCounts` is a reference definition on the rows themselves.
- `ScanIsMultipartCounts` proves the two equal.

The properties the script promises are proved about `MultipartCounts`.

Two behaviours of the script, stated as the model has them:
- With no multipart rows the script prints `No multipart features found` and
  returns without a count (lines 101-103). The model returns `NoneFound`.
- A newly added field reads null in rows the update does not visit.

## Model

| member | source | states |
|---|---|---|
| PyDict.Set | python/arcpy-python/count_multipart_features_2/count_multipart_features_2.py:58 | `d[k] = v`: afterwards `k` maps to `v`; a present key keeps its place and a new key is appended; every other key keeps its value; no key is duplicated |
| PyDict.GetPaired | python/arcpy-python/count_multipart_features_2/count_multipart_features_2.py:122 | `d[k]` is a value the dict pairs with `k`, and with unique keys the only one |
| PyDict.GetUnique | python/arcpy-python/count_multipart_features_2/count_multipart_features_2.py:122 | with unique keys, a pair `(k, v)` of the dict means `d[k] == v` |
| PyDict.SetValues | python/arcpy-python/count_multipart_features_2/count_multipart_features_2.py:123 | `list(d.values())` after `d[k] = v`: a new key's value goes last, a present key's value is replaced at its own position, all other values stay in order |
| PyDict.FromZip | python/arcpy-python/count_multipart_features_2/count_multipart_features_2.py:58 | `dict(zip(ks, vs))` never holds a key twice, whatever the keys |
| PyDict.FromZipKeysValues | python/arcpy-python/count_multipart_features_2/count_multipart_features_2.py:58 | `dict(zip(ks, vs))` with distinct keys lists exactly `ks` as its keys and `vs` as its values, in order |
| PyDict.FromZipGet | python/arcpy-python/count_multipart_features_2/count_multipart_features_2.py:58 | `dict(zip(ks, vs))[ks[i]] == vs[i]` when the keys are distinct |
| Text.NatToString | python/arcpy-python/count_multipart_features_2/count_multipart_features_2.py:117 | `str(n)` for `n >= 0` is a non-empty string of decimal digits, one digit exactly when `n < 10` |
| Text.IntToString | python/arcpy-python/count_multipart_features_2/count_multipart_features_2.py:117 | `str(k)` is non-empty and holds only digits and the minus sign, so never a comma |
| Text.ParseNatToString | python/arcpy-python/count_multipart_features_2/count_multipart_features_2.py:117 | reading the digits of `str(n)` gives back `n` |
| Text.ParseIntToString | python/arcpy-python/count_multipart_features_2/count_multipart_features_2.py:117 | reading `str(k)` gives back `k`, negative numbers included |
| Text.SplitJoin | python/arcpy-python/count_multipart_features_2/count_multipart_features_2.py:119 | splitting `','.join(parts)` on `,` gives back `parts` when no part holds a comma |
| Text.Join | python/arcpy-python/count_multipart_features_2/count_multipart_features_2.py:119 | every character of `sep.join(parts)` is the separator or comes from one of the parts |
| Sql.Decimals | python/arcpy-python/count_multipart_features_2/count_multipart_features_2.py:117 | `[str(k) for k in keys]`: one string per key, in order |
| Sql.InQuery | python/arcpy-python/count_multipart_features_2/count_multipart_features_2.py:119 | the clause is the OID field name, then ` IN (`, then the keys' decimal strings joined by `,`, then `)`; between the parentheses there are only digits, minus signs and commas |
| Sql.ParseDecimals | python/arcpy-python/count_multipart_features_2/count_multipart_features_2.py:117 | the decimal strings of the keys read back as the keys |
| Sql.InQueryRoundTrip | python/arcpy-python/count_multipart_features_2/count_multipart_features_2.py:117-119 | the clause `<oid> IN (k1,...,kn)` built from non-empty keys reads back as exactly those keys, so it selects a row if and only if the row's id is one of them |
| Sql.EmptyInQueryRejected | python/arcpy-python/count_multipart_features_2/count_multipart_features_2.py:101-103 | the clause built from no keys, `<oid> IN ()`, is not a valid list and selects no row; the script returns before building it, because with no keys there is nothing to update |
| Dataset.Names | python/arcpy-python/count_multipart_features_2/count_multipart_features_2.py:27-28 | `[f.name for f in fields]`: one name per field, in field order |
| Dataset.Project | python/arcpy-python/count_multipart_features_2/count_multipart_features_2.py:56-58 | `dict(zip(cursor.fields, row))` over distinct fields has exactly the requested fields as keys, in order, each mapped to the row's value for it |
| Dataset.Commit | python/arcpy-python/count_multipart_features_2/count_multipart_features_2.py:123 | `cursor.updateRow(vs)` never changes the object id, leaves every cell of a field it was not opened on as it was, and leaves the geometry alone unless opened on the shape field |
| Dataset.LookupWrite | python/arcpy-python/count_multipart_features_2/count_multipart_features_2.py:121-123 | what a cursor yields for a field (`Lookup`) after a write to it through `updateRow` (`Write`) is the written value, and a write changes what no other non-shape field yields |
| Dataset.GetRows | python/arcpy-python/count_multipart_features_2/count_multipart_features_2.py:48-59 | every dict `get_rows` yields has exactly the requested fields as keys |
| Dataset.Selected | python/arcpy-python/count_multipart_features_2/count_multipart_features_2.py:56 | a cursor visits exactly the rows of the feature class that its where-clause selects: every row it lists is selected, and every selected row is listed |
| Dataset.SelectedAll | python/arcpy-python/count_multipart_features_2/count_multipart_features_2.py:56 | without a where-clause a cursor visits every row, in order |
| Dataset.GetRowsAll | python/arcpy-python/count_multipart_features_2/count_multipart_features_2.py:56-58 | `get_rows` without a where-clause yields one dict per row, in row order, each the row projected over the requested fields |
| Dataset.CommitReaches | python/arcpy-python/count_multipart_features_2/count_multipart_features_2.py:123 | `updateRow` with the target row's values for the given fields turns a row that differs from the target only in those fields into the target |
| Dataset.CommitAssigned | python/arcpy-python/count_multipart_features_2/count_multipart_features_2.py:121-123 | project a row over distinct fields, assign `row[name] = v` for an attribute field, commit `list(row.values())`: the row comes back with that one cell changed and nothing else |
| Dataset.CommitUnchanged | python/arcpy-python/count_multipart_features_2/count_multipart_features_2.py:69-71 | committing an unmodified projected dict leaves the row as it was |
| Dataset.RemoveField | python/arcpy-python/count_multipart_features_2/count_multipart_features_2.py:111 | after deleting `name`, the field list holds exactly the other fields and no field of that name |
| Dataset.RemoveFieldAbsent | python/arcpy-python/count_multipart_features_2/count_multipart_features_2.py:107-111 | removing a name no field has leaves the field list unchanged |
| Dataset.RemoveFieldDistinct | python/arcpy-python/count_multipart_features_2/count_multipart_features_2.py:111 | deleting a field keeps field names unique |
| Dataset.DropColumn | python/arcpy-python/count_multipart_features_2/count_multipart_features_2.py:111 | deleting a field removes its cell from every row and changes nothing else |
| Dataset.AddColumn | python/arcpy-python/count_multipart_features_2/count_multipart_features_2.py:113 | adding a field gives every row a null cell for it and changes nothing else |
| Dataset.DropThenAdd | python/arcpy-python/count_multipart_features_2/count_multipart_features_2.py:111-113 | deleting a field and adding it again leaves a fresh null cell in every row, as adding it to rows that never had it does |
| Dataset.ConsistentAfterDelete | python/arcpy-python/count_multipart_features_2/count_multipart_features_2.py:111 | deleting an attribute field keeps the feature class consistent: unique names, the OID and shape fields present, each row's cells matching the attribute fields, unique ids |
| Dataset.ConsistentAfterAdd | python/arcpy-python/count_multipart_features_2/count_multipart_features_2.py:113 | appending a fresh, non-token field keeps the feature class consistent |
| Dataset.AppendedAttribute | python/arcpy-python/count_multipart_features_2/count_multipart_features_2.py:113 | the appended field is an attribute field that rows carry a cell for |
| Dataset.Feature.constructor | python/arcpy-python/count_multipart_features_2/count_multipart_features_2.py:21-24 | a `Feature` holds the describe snapshot, the field list and the rows it was opened on |
| Dataset.Feature.FieldNames | python/arcpy-python/count_multipart_features_2/count_multipart_features_2.py:26-28 | `field_names` lists the feature class's field names, in field order |
| Dataset.Feature.DropCells | python/arcpy-python/count_multipart_features_2/count_multipart_features_2.py:111 | the loop over the rows leaves exactly `DropColumn` of the old rows |
| Dataset.Feature.NullCells | python/arcpy-python/count_multipart_features_2/count_multipart_features_2.py:113 | the loop over the rows leaves exactly `AddColumn` of the old rows |
| Dataset.Feature.DeleteField | python/arcpy-python/count_multipart_features_2/count_multipart_features_2.py:111 | succeeds if and only if the field is present and is neither the OID nor the shape field; on success the field and its cells are gone; on failure nothing changes; the feature class stays consistent |
| Dataset.Feature.AddField | python/arcpy-python/count_multipart_features_2/count_multipart_features_2.py:113 | succeeds if and only if the name is free and not a cursor token; on success the field is appended with a null cell in every row; on failure nothing changes; the feature class stays consistent |
| Multipart.PartCounts | python/arcpy-python/count_multipart_features_2/count_multipart_features_2.py:93-98 | the scan's dict never holds an id twice |
| Multipart.ScanStep | python/arcpy-python/count_multipart_features_2/count_multipart_features_2.py:95-97 | one step of the comprehension keeps the dict free of repeated keys, keeps every key already found, and adds at most one entry |
| Multipart.GetRowsScanReady | python/arcpy-python/count_multipart_features_2/count_multipart_features_2.py:96 | every dict the scan's `get_rows([OID@, SHAPE@])` yields holds both fields, the id as an integer |
| Multipart.PartCountsOverGetRows | python/arcpy-python/count_multipart_features_2/count_multipart_features_2.py:93-98 | `PartCounts` is the comprehension over exactly the dicts `get_rows([OID@, SHAPE@])` yields |
| Multipart.ScanOfProjections | python/arcpy-python/count_multipart_features_2/count_multipart_features_2.py:93-98 | the comprehension over the rows projected one by one builds the reference dict `MultipartCounts` |
| Multipart.ScanStepSpec | python/arcpy-python/count_multipart_features_2/count_multipart_features_2.py:95-97 | one step of the comprehension: the projected dict has `OID@` and `SHAPE@`; a row with a non-null multipart geometry assigns its part count to its id; any other row adds nothing |
| Multipart.MultipartOids | python/arcpy-python/count_multipart_features_2/count_multipart_features_2.py:97 | an id is listed if and only if some row with that id has a non-null multipart geometry |
| Multipart.MultipartCounts | python/arcpy-python/count_multipart_features_2/count_multipart_features_2.py:93-98 | the reference dict never holds an id twice |
| Multipart.ScanIsMultipartCounts | python/arcpy-python/count_multipart_features_2/count_multipart_features_2.py:93-98 | the comprehension, through the projected dicts, builds exactly the reference dict |
| Multipart.MultipartCountsSpec | python/arcpy-python/count_multipart_features_2/count_multipart_features_2.py:93-98 | the dict's keys are exactly the multipart rows' ids, in row order, and each maps to that row's `partCount`; single-part and null-geometry rows are absent |
| Multipart.KeysAreMultipart | python/arcpy-python/count_multipart_features_2/count_multipart_features_2.py:93-98 | a row's id is a key if and only if the row is multipart |
| Multipart.MultipartRows | python/arcpy-python/count_multipart_features_2/count_multipart_features_2.py:97 | exactly the multipart rows are listed: every listed row is a multipart row of the feature class, and every multipart row is listed |
| Multipart.SelectedByMultipart | python/arcpy-python/count_multipart_features_2/count_multipart_features_2.py:121 | a clause that selects exactly the multipart rows' ids makes the cursor visit exactly the multipart rows |
| Multipart.UpdateQuerySelectsMultipart | python/arcpy-python/count_multipart_features_2/count_multipart_features_2.py:117-121 | the update cursor, opened with the `IN` clause built from the dict's keys, visits exactly the multipart rows, in row order |
| Multipart.CountIsMultipartRows | python/arcpy-python/count_multipart_features_2/count_multipart_features_2.py:101-103 | `len(multipart_counts)` is the number of multipart rows, and it is zero if and only if no row is multipart |
| Multipart.ApplyCounts | python/arcpy-python/count_multipart_features_2/count_multipart_features_2.py:119-123 | after the update each row whose id is a key holds its count in the field, and every other row is as before |
| Multipart.UpdatedRows | python/arcpy-python/count_multipart_features_2/count_multipart_features_2.py:113-123 | the rows after a successful run keep their ids and geometries, and each gains exactly the count field's cell |
| Multipart.UpdatedFields | python/arcpy-python/count_multipart_features_2/count_multipart_features_2.py:107-113 | the field list after a successful run holds exactly the fields of another name, plus the count field as a short integer field |
| Multipart.UpdatedRowsSpec | python/arcpy-python/count_multipart_features_2/count_multipart_features_2.py:113-123 | after a successful run each multipart row holds its part count in the field, every other row holds null there, and no other cell, id or geometry changed |
| Multipart.UpdatedFieldOnce | python/arcpy-python/count_multipart_features_2/count_multipart_features_2.py:107-113 | after a successful run the field appears exactly once in the field list, as the last field |
| Multipart.RerunRowsIdempotent | python/arcpy-python/count_multipart_features_2/count_multipart_features_2.py:107-123 | a second run with overwrite on leaves the same rows as the first |
| Multipart.RerunFieldsIdempotent | python/arcpy-python/count_multipart_features_2/count_multipart_features_2.py:107-113 | a second run with overwrite on leaves the same field list as the first |
| Multipart.RemoveFieldAppend | python/arcpy-python/count_multipart_features_2/count_multipart_features_2.py:111-113 | deleting a field that was appended last undoes the append |
| Multipart.ConsistentAfterApply | python/arcpy-python/count_multipart_features_2/count_multipart_features_2.py:119-123 | writing counts into an attribute field keeps the feature class consistent |
| Multipart.UpdateRow | python/arcpy-python/count_multipart_features_2/count_multipart_features_2.py:121-123 | the loop body on one row: project over `[OID@, name]`, assign `row[name] = multipart_counts[oid]`, commit; the row gets its count in that field and nothing else changes |
| Multipart.VisitRow | python/arcpy-python/count_multipart_features_2/count_multipart_features_2.py:121-123 | the row at one position gets its count if its id is a key and is otherwise untouched; every other position is untouched |
| Multipart.UpdateSelected | python/arcpy-python/count_multipart_features_2/count_multipart_features_2.py:120-123 | the update loop over the array leaves exactly `ApplyCounts` of the old rows when the clause selects exactly the keys |
| Multipart.WriteCounts | python/arcpy-python/count_multipart_features_2/count_multipart_features_2.py:116-123 | building the `IN` clause from the keys and running the update loop leaves exactly `ApplyCounts` of the old rows and keeps the feature class consistent |
| Multipart.ClearField | python/arcpy-python/count_multipart_features_2/count_multipart_features_2.py:107-111 | a present field with overwrite off gives `FieldExists` and no change; with overwrite on it is deleted, or the run fails with `SchemaError` for the OID or shape field; an absent field changes nothing |
| Multipart.SetUpField | python/arcpy-python/count_multipart_features_2/count_multipart_features_2.py:107-113 | the field list becomes the old list without `name`, plus `name` as a short field, and every row gets a null cell, or the run fails with `FieldExists` (the name is present and overwrite is off) or `SchemaError` (the OID or shape field would be deleted, or a cursor token added), changing nothing |
| Multipart.StoreCounts | python/arcpy-python/count_multipart_features_2/count_multipart_features_2.py:105-123 | outside report-only mode: `FieldExists` and `SchemaError` under the conditions of `SetUpField`, with nothing changed; otherwise the field is rebuilt, the counts written, and the number of counts returned |
| Multipart.CountMultipart | python/arcpy-python/count_multipart_features_2/count_multipart_features_2.py:74-125 | the whole run: `NotFound` if and only if the path is missing; `Unsupported` if and only if MultiPatch; `NoneFound` if and only if no multipart rows; `Reported(n)` in report-only mode; `FieldExists`/`SchemaError` in their cases; `Updated(n)` otherwise, with `n = len(multipart_counts)`; only `Updated` changes the feature class, and then the fields and rows are exactly `UpdatedFields`/`UpdatedRows` |
| Scenario.ScanAndQuery | python/arcpy-python/count_multipart_features_2/count_multipart_features_2.py:93-119 | on rows 1 (single-part), 2 and 3 (multipart) the scan finds ids 2 and 3 and the clause reads `OBJECTID IN (2,3)` |
| Scenario.QueryForTwoThree | python/arcpy-python/count_multipart_features_2/count_multipart_features_2.py:117-119 | the clause for ids 2 and 3 is exactly `OBJECTID IN (2,3)` |
| Scenario.ParcelsCounted | python/arcpy-python/count_multipart_features_2/count_multipart_features_2.py:93-98 | the same rows give a dict with two entries |
| Scenario.ParcelsUpdated | python/arcpy-python/count_multipart_features_2/count_multipart_features_2.py:119-123 | the update leaves the part counts in rows 2 and 3 and null in row 1 |
| Scenario.BaseConsistent | python/arcpy-python/count_multipart_features_2/count_multipart_features_2.py:21-24 | the three-row class with only the OID and shape fields is a consistent feature class |
| Scenario.WithPartCountConsistent | python/arcpy-python/count_multipart_features_2/count_multipart_features_2.py:21-24 | the same class with a `PartCount` field is consistent |
| Scenario.PartCountIsNew | python/arcpy-python/count_multipart_features_2/count_multipart_features_2.py:107 | `PartCount` is not among the base fields and is not a cursor token |
| Scenario.AddsPartCount | python/arcpy-python/count_multipart_features_2/count_multipart_features_2.py:74-125 | a run with the default field name, overwrite off and report-only off on rows 1 (single-part), 2 and 3 (multipart) returns `Updated(2)`, appends `PartCount`, and leaves the part counts in rows 2 and 3 and null in row 1 |
| Scenario.RefusesExistingField | python/arcpy-python/count_multipart_features_2/count_multipart_features_2.py:107-109 | the same run on a class that already has `PartCount` returns `FieldExists` and leaves fields and rows as they were |

## Left out

- arcpy itself is not modelled. The feature class is in-memory state: `arcpy.Exists` is membership in a catalog of features by path, and `arcpy.da.Describe` is the `Describe` value given when a `Feature` is built. The cursor and field-management calls are operations on that state.
- `self.__dict__ = arcpy.da.Describe(path)` (line 24) is replaced by explicit members.
- `Feature.field_names` reads the describe snapshot taken at construction. The model reads the live field list. Within one run the field list is read once, before any change, so the two agree.
- `catalogPath` (lines 56 and 69), `workspacePath` (lines 31-32, 86 and 116) and `baseName` (line 125) are carried in `Describe` but never read, because the cursors, the workspace setting, the edit session and the printed message they serve are not modelled. `shapeType` decides `Unsupported` (lines 89-90).
- `arcpy.env.workspace` (line 86) is not modelled, because it is a global setting of the library.
- The `print` output (lines 102 and 125) is not modelled. What it reports is the returned `Outcome` and its count.
- `ValueError` is modelled as the `Outcome` values. A SchemaError from arcpy is only modelled for the cases whose cause is visible in the model.
- The `arcpy.da.Editor` edit session (line 116) is not modelled: the update loop runs to completion. Atomicity and partial failure belong to the library.
- `SearchCursor`/`UpdateCursor` resource handling and the generator protocol are left out. The update loop walks the array of rows and visits the rows the clause selects, in order.
- SQL in general is not modelled. A where-clause has a meaning only in the `<oid> IN (k1,...)` form that the script builds.
- Field-name validation by arcpy is not modelled. The only refusals are a taken name and a cursor token.
- Field names are compared case-sensitively, as the `in` test of line 107 does. A geodatabase compares field names without regard to case, so arcpy refuses to add `partcount` when `PartCount` exists. The model's `AddField` appends it as a second field.
- Required fields other than the OID and shape fields, such as `Shape_Length` and `Shape_Area`, are attribute fields in the model. `DeleteField` removes them, where arcpy refuses to delete them.
- Shapefiles are not modelled apart from geodatabases. In a shapefile a new SHORT field cannot hold null and reads 0 in the rows the update does not visit. The model's `AddField` always writes null.
- Geometry is not computed. `partCount` and `isMultipart` are opaque inputs.
- Multipart.UpdateRow: does not model the SHORT field's 16-bit range. A part count above 32767 is stored as the model's unbounded integer, because the script promises nothing about overflow.
- `main()` and the commented-out batch loop (lines 127-146) are not modelled, because they are a hard-coded invocation.
