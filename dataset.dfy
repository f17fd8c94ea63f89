/**
 * A feature class held in memory: what `arcpy.da.Describe` reports about it
 * (its identity and schema), its rows, and the two cursor conventions the
 * `Feature` wrapper relies on: rows come out of a cursor as a dict from the
 * requested field names to values, and go back in as the list of that dict's
 * values, in the same order.
 */
module Dataset {
  import opened Options
  import opened PyDict
  import opened Sql

  datatype ShapeType = Point | Multipoint | Polyline | Polygon | MultiPatch

  /** What the model needs of a geometry: its part count and multipart flag. */
  datatype Geometry = Geometry(partCount: nat, isMultipart: bool)

  /** A cell as a cursor yields it; `Null` is Python's `None`. */
  datatype Value = Null | Int(i: int) | Text(s: string) | Shape(geometry: Geometry)

  datatype FieldType = OidType | GeometryType | ShortType | OtherType

  datatype Field = Field(name: string, fieldType: FieldType)

  /** A stored row: its object id, its geometry (absent when null) and its
      attribute cells by field name. */
  datatype Row = Row(oid: int, shape: Option<Geometry>, attrs: map<string, Value>)

  /** The parts of the describe object the wrapper reads. */
  datatype Describe = Describe(
    catalogPath: string,
    baseName: string,
    workspacePath: string,
    shapeType: ShapeType,
    oidFieldName: string,
    shapeFieldName: string)

  /** The cursor tokens for the object id and for the geometry. */
  const IdToken: string := "OID@"
  const ShapeToken: string := "SHAPE@"

  predicate IsIdField(desc: Describe, f: string) {
    f == IdToken || f == desc.oidFieldName
  }

  predicate IsShapeField(desc: Describe, f: string) {
    f == ShapeToken || f == desc.shapeFieldName
  }

  /** A field that is stored in a row's attribute cells. */
  predicate IsAttribute(desc: Describe, f: string) {
    !IsIdField(desc, f) && !IsShapeField(desc, f)
  }

  function Names(fields: seq<Field>): (names: seq<string>)
    ensures |names| == |fields|
    ensures forall i :: 0 <= i < |fields| ==> names[i] == fields[i].name
  {
    seq(|fields|, i requires 0 <= i < |fields| => fields[i].name)
  }

  /** The names of the fields whose values live in the attribute cells. */
  function AttributeNames(desc: Describe, fields: seq<Field>): set<string> {
    set f | f in Names(fields) && IsAttribute(desc, f)
  }

  /** The native OID and shape field names are distinct and neither is a
      cursor token, so each token and each name reads one thing. */
  predicate DescribeWellFormed(desc: Describe) {
    && desc.oidFieldName != desc.shapeFieldName
    && desc.oidFieldName != IdToken && desc.oidFieldName != ShapeToken
    && desc.shapeFieldName != IdToken && desc.shapeFieldName != ShapeToken
  }

  predicate UniqueOids(rows: seq<Row>) {
    forall i, j :: 0 <= i < j < |rows| ==> rows[i].oid != rows[j].oid
  }

  /** What a feature class must satisfy: field names are unique, the OID and
      shape fields are present and distinct, no field is named like a cursor
      token, every row has a cell for exactly the attribute fields, and object
      ids are unique. */
  predicate Consistent(desc: Describe, fields: seq<Field>, rows: seq<Row>) {
    && DescribeWellFormed(desc)
    && Distinct(Names(fields))
    && desc.oidFieldName in Names(fields)
    && desc.shapeFieldName in Names(fields)
    && IdToken !in Names(fields)
    && ShapeToken !in Names(fields)
    && (forall i :: 0 <= i < |rows| ==> rows[i].attrs.Keys == AttributeNames(desc, fields))
    && UniqueOids(rows)
  }

  /** The value a cursor yields for field `f` of row `r`. */
  function Lookup(desc: Describe, r: Row, f: string): Value {
    if IsIdField(desc, f) then Int(r.oid)
    else if IsShapeField(desc, f) then
      match r.shape
      case Some(g) => Shape(g)
      case None => Null
    else if f in r.attrs then r.attrs[f]
    else Null
  }

  /** One position of `updateRow`: the object id is read-only, the shape slot
      replaces the geometry, any other slot replaces that cell. */
  function Write(desc: Describe, r: Row, f: string, v: Value): Row {
    if IsIdField(desc, f) then r
    else if IsShapeField(desc, f) then
      r.(shape := if v.Shape? then Some(v.geometry) else None)
    else r.(attrs := r.attrs[f := v])
  }

  /** A value written through `updateRow` into a field other than the object
      id reads back from that field: a geometry or null in the shape slot, any
      value in an attribute slot. */
  lemma LookupWrite(desc: Describe, r: Row, f: string, v: Value)
    requires !IsIdField(desc, f)
    requires IsShapeField(desc, f) ==> v.Shape? || v.Null?
    ensures Lookup(desc, Write(desc, r, f, v), f) == v
    ensures forall g :: g != f && !IsShapeField(desc, g) ==> Lookup(desc, Write(desc, r, f, v), g) == Lookup(desc, r, g)
  {
  }

  function LookupAll(desc: Describe, r: Row, fs: seq<string>): (vs: seq<Value>)
    ensures |vs| == |fs|
    ensures forall i :: 0 <= i < |fs| ==> vs[i] == Lookup(desc, r, fs[i])
  {
    seq(|fs|, i requires 0 <= i < |fs| => Lookup(desc, r, fs[i]))
  }

  /** `dict(zip(cursor.fields, row))`: a row as a cursor over `fs` yields it. */
  function Project(desc: Describe, r: Row, fs: seq<string>): (d: Dict<string, Value>)
    ensures Distinct(fs) ==> WellFormed(d) && Keys(d) == fs && Values(d) == LookupAll(desc, r, fs)
    ensures Distinct(fs) ==> forall i :: 0 <= i < |fs| ==> Get(d, fs[i]) == Lookup(desc, r, fs[i])
  {
    var d := FromZip(fs, LookupAll(desc, r, fs));
    if Distinct(fs) then
      FromZipKeysValues(fs, LookupAll(desc, r, fs));
      assert forall i :: 0 <= i < |fs| ==> Get(d, fs[i]) == Lookup(desc, r, fs[i]) by {
        forall i | 0 <= i < |fs| ensures Get(d, fs[i]) == Lookup(desc, r, fs[i]) {
          FromZipGet(fs, LookupAll(desc, r, fs), i);
        }
      }
      d
    else d
  }

  /** `cursor.updateRow(vs)` on a cursor over `fs`: writes each value to the
      field at the same position. */
  function Commit(desc: Describe, r: Row, fs: seq<string>, vs: seq<Value>): (t: Row)
    requires |fs| == |vs|
    ensures t.oid == r.oid
    ensures forall f :: f in r.attrs && f !in fs ==> f in t.attrs && t.attrs[f] == r.attrs[f]
    ensures (forall f :: f in fs ==> !IsShapeField(desc, f)) ==> t.shape == r.shape
    decreases |fs|
  {
    if |fs| == 0 then r else Commit(desc, Write(desc, r, fs[0], vs[0]), fs[1..], vs[1..])
  }

  /** `r` and `t` are the same row except perhaps for the cells named in `s`. */
  predicate AgreeExcept(r: Row, t: Row, s: set<string>) {
    && r.oid == t.oid
    && r.shape == t.shape
    && r.attrs.Keys == t.attrs.Keys
    && forall k :: k in r.attrs && k !in s ==> r.attrs[k] == t.attrs[k]
  }

  /** Committing the values `t` has for `fs` turns a row that differs from `t`
      only in cells named in `fs` into `t`. */
  lemma {:induction false} CommitReaches(desc: Describe, r: Row, t: Row, fs: seq<string>, vs: seq<Value>, s: set<string>)
    requires |fs| == |vs|
    requires forall i :: 0 <= i < |fs| ==> vs[i] == Lookup(desc, t, fs[i])
    requires forall i :: 0 <= i < |fs| && IsAttribute(desc, fs[i]) ==> fs[i] in t.attrs
    requires AgreeExcept(r, t, s)
    requires forall k :: k in s ==> k in fs && IsAttribute(desc, k)
    ensures Commit(desc, r, fs, vs) == t
    decreases |fs|
  {
    if |fs| == 0 {
      assert r.attrs == t.attrs;
    } else {
      var f := fs[0];
      var r' := Write(desc, r, f, vs[0]);
      assert vs[0] == Lookup(desc, t, f);
      if IsAttribute(desc, f) {
        assert f in t.attrs;
        assert r'.attrs == r.attrs[f := t.attrs[f]];
        assert r'.attrs.Keys == t.attrs.Keys;
      }
      forall k | k in r'.attrs && k !in s - {f} ensures r'.attrs[k] == t.attrs[k] {
        if k != f {
          assert r'.attrs[k] == r.attrs[k];
        }
      }
      assert AgreeExcept(r', t, s - {f});
      CommitReaches(desc, r', t, fs[1..], vs[1..], s - {fs[0]});
    }
  }

  /** The update cursor's round trip: project a row over distinct fields,
      assign `v` to one attribute field of the dict, and commit the dict's
      values in order; the row comes back with that one cell changed. */
  lemma CommitAssigned(desc: Describe, r: Row, fs: seq<string>, name: string, v: Value)
    requires Distinct(fs) && name in fs && IsAttribute(desc, name)
    requires forall i :: 0 <= i < |fs| && IsAttribute(desc, fs[i]) ==> fs[i] in r.attrs
    ensures var d := Set(Project(desc, r, fs), name, v);
      Commit(desc, r, fs, Values(d)) == r.(attrs := r.attrs[name := v])
  {
    AssignedValues(desc, r, fs, name, v);
    CommitOneCell(desc, r, fs, Values(Set(Project(desc, r, fs), name, v)), name, v);
  }

  /** Committing, over distinct fields that include the attribute `name`,
      the values a row updated in that one cell would show, updates that cell. */
  lemma CommitOneCell(desc: Describe, r: Row, fs: seq<string>, vs: seq<Value>, name: string, v: Value)
    requires |fs| == |vs| && name in fs && IsAttribute(desc, name)
    requires forall i :: 0 <= i < |fs| && IsAttribute(desc, fs[i]) ==> fs[i] in r.attrs
    requires forall i :: 0 <= i < |fs| ==> vs[i] == Lookup(desc, r.(attrs := r.attrs[name := v]), fs[i])
    ensures Commit(desc, r, fs, vs) == r.(attrs := r.attrs[name := v])
  {
    var t := r.(attrs := r.attrs[name := v]);
    assert AgreeExcept(r, t, {name});
    CommitReaches(desc, r, t, fs, vs, {name});
  }

  /** The values of the assigned dict are those of the row updated in the
      one cell. */
  lemma AssignedValues(desc: Describe, r: Row, fs: seq<string>, name: string, v: Value)
    requires Distinct(fs) && name in fs && IsAttribute(desc, name)
    ensures |Values(Set(Project(desc, r, fs), name, v))| == |fs|
    ensures forall i :: 0 <= i < |fs| ==>
      Values(Set(Project(desc, r, fs), name, v))[i] == Lookup(desc, r.(attrs := r.attrs[name := v]), fs[i])
  {
    assert |Project(desc, r, fs)| == |fs|;
    forall i | 0 <= i < |fs|
      ensures Values(Set(Project(desc, r, fs), name, v))[i] == Lookup(desc, r.(attrs := r.attrs[name := v]), fs[i])
    {
      AssignedValueAt(desc, r, fs, name, v, i);
    }
  }

  /** Position `i` of the assigned dict's values holds what the updated row
      has in field `fs[i]`. */
  lemma AssignedValueAt(desc: Describe, r: Row, fs: seq<string>, name: string, v: Value, i: nat)
    requires Distinct(fs) && name in fs && IsAttribute(desc, name) && i < |fs|
    ensures |Values(Set(Project(desc, r, fs), name, v))| == |fs|
    ensures Values(Set(Project(desc, r, fs), name, v))[i] == Lookup(desc, r.(attrs := r.attrs[name := v]), fs[i])
  {
    var d0 := Project(desc, r, fs);
    assert Keys(d0) == fs;
    assert HasKey(d0, name);
    assert d0[i].0 == fs[i];
    SetValues(d0, name, v);
    LookupAssigned(desc, r, name, v, fs[i]);
    if fs[i] != name {
      assert d0[i].1 == Values(d0)[i] == Lookup(desc, r, fs[i]);
    }
  }

  /** Assigning an attribute cell changes what that field reads and nothing
      else. */
  lemma LookupAssigned(desc: Describe, r: Row, name: string, v: Value, f: string)
    requires IsAttribute(desc, name)
    ensures Lookup(desc, r.(attrs := r.attrs[name := v]), f) == if f == name then v else Lookup(desc, r, f)
  {
  }

  /** Committing the values of a dict projected from a row, unmodified,
      leaves the row as it was. */
  lemma CommitUnchanged(desc: Describe, r: Row, fs: seq<string>)
    requires Distinct(fs)
    requires forall i :: 0 <= i < |fs| && IsAttribute(desc, fs[i]) ==> fs[i] in r.attrs
    ensures Commit(desc, r, fs, Values(Project(desc, r, fs))) == r
  {
    var d := Project(desc, r, fs);
    CommitReaches(desc, r, r, fs, Values(d), {});
  }

  /** Whether a cursor with the optional where-clause visits row `r`; no
      clause visits every row. */
  predicate Selects(desc: Describe, query: Option<string>, r: Row) {
    query.None? || SelectsOid(query.value, desc.oidFieldName, r.oid)
  }

  /** The rows a cursor with the optional where-clause visits, in row order. */
  function Selected(desc: Describe, rows: seq<Row>, query: Option<string>): (sel: seq<Row>)
    ensures |sel| <= |rows|
    ensures forall r :: r in sel ==> r in rows && Selects(desc, query, r)
    ensures forall i :: 0 <= i < |rows| && Selects(desc, query, rows[i]) ==> rows[i] in sel
  {
    if |rows| == 0 then []
    else
      var last := rows[|rows| - 1];
      assert forall i :: 0 <= i < |rows| - 1 ==> rows[..|rows| - 1][i] == rows[i];
      Selected(desc, rows[..|rows| - 1], query) + if Selects(desc, query, last) then [last] else []
  }

  /** `get_rows(fs, query=query)`: the dicts a search cursor over `fs` yields. */
  function GetRows(desc: Describe, rows: seq<Row>, fs: seq<string>, query: Option<string>): (ds: seq<Dict<string, Value>>)
    ensures Distinct(fs) ==> forall i :: 0 <= i < |ds| ==> Keys(ds[i]) == fs
  {
    var sel := Selected(desc, rows, query);
    seq(|sel|, i requires 0 <= i < |sel| => Project(desc, sel[i], fs))
  }

  /** The scan's `get_rows([OID@, SHAPE@])` without a where-clause yields one
      dict per row, in row order: the row projected over the fields. */
  lemma GetRowsAll(desc: Describe, rows: seq<Row>, fs: seq<string>)
    ensures |GetRows(desc, rows, fs, None)| == |rows|
    ensures forall i :: 0 <= i < |rows| ==> GetRows(desc, rows, fs, None)[i] == Project(desc, rows[i], fs)
  {
    SelectedAll(desc, rows);
  }

  /** Without a where-clause a cursor visits every row. */
  lemma {:induction false} SelectedAll(desc: Describe, rows: seq<Row>)
    ensures Selected(desc, rows, None) == rows
  {
    if |rows| > 0 {
      SelectedAll(desc, rows[..|rows| - 1]);
      assert rows[..|rows| - 1] + [rows[|rows| - 1]] == rows;
    }
  }

  /** Removes the field named `name`. */
  function RemoveField(fields: seq<Field>, name: string): (r: seq<Field>)
    ensures forall f :: f in r <==> f in fields && f.name != name
    ensures name !in Names(r)
  {
    if |fields| == 0 then []
    else
      var rest := RemoveField(fields[1..], name);
      assert fields == [fields[0]] + fields[1..];
      if fields[0].name == name then rest
      else
        NamesCons(fields[0], rest);
        assert name !in [fields[0].name] + Names(rest);
        [fields[0]] + rest
  }

  lemma NamesCons(f: Field, fields: seq<Field>)
    ensures Names([f] + fields) == [f.name] + Names(fields)
  {
    var a, b := Names([f] + fields), [f.name] + Names(fields);
    forall i | 0 <= i < |a| ensures a[i] == b[i] {
      if i > 0 {
        assert ([f] + fields)[i] == fields[i - 1];
      }
    }
  }

  /** Removing a name no field has changes nothing. */
  lemma {:induction false} RemoveFieldAbsent(fields: seq<Field>, name: string)
    requires name !in Names(fields)
    ensures RemoveField(fields, name) == fields
  {
    if |fields| > 0 {
      assert fields == [fields[0]] + fields[1..];
      NamesCons(fields[0], fields[1..]);
      assert fields[0].name != name;
      assert name !in Names(fields[1..]) by {
        assert forall x :: x in Names(fields[1..]) ==> x in [fields[0].name] + Names(fields[1..]);
      }
      RemoveFieldAbsent(fields[1..], name);
    }
  }

  /** Removing a field keeps the field names distinct. */
  lemma {:induction false} RemoveFieldDistinct(fields: seq<Field>, name: string)
    requires Distinct(Names(fields))
    ensures Distinct(Names(RemoveField(fields, name)))
  {
    if |fields| > 0 {
      assert fields == [fields[0]] + fields[1..];
      NamesCons(fields[0], fields[1..]);
      DistinctTail(Names(fields));
      RemoveFieldDistinct(fields[1..], name);
      var rest := RemoveField(fields[1..], name);
      if fields[0].name != name {
        forall j | 0 <= j < |rest| ensures Names(rest)[j] != fields[0].name {
          assert rest[j] in fields[1..];
          var k :| 0 <= k < |fields| - 1 && fields[1..][k] == rest[j];
          assert Names(fields)[k + 1] == rest[j].name;
        }
        DistinctCons(fields[0].name, Names(rest));
        NamesCons(fields[0], rest);
      }
    }
  }

  function DropColumn(rows: seq<Row>, name: string): (r: seq<Row>)
    ensures |r| == |rows|
    ensures forall i :: 0 <= i < |rows| ==> r[i] == rows[i].(attrs := rows[i].attrs - {name})
  {
    seq(|rows|, i requires 0 <= i < |rows| => rows[i].(attrs := rows[i].attrs - {name}))
  }

  function AddColumn(rows: seq<Row>, name: string): (r: seq<Row>)
    ensures |r| == |rows|
    ensures forall i :: 0 <= i < |rows| ==> r[i] == rows[i].(attrs := rows[i].attrs[name := Null])
  {
    seq(|rows|, i requires 0 <= i < |rows| => rows[i].(attrs := rows[i].attrs[name := Null]))
  }

  /** Dropping a column and adding it again leaves every row with a fresh
      null cell for it, exactly as adding it to rows that never had it. */
  lemma DropThenAdd(rows: seq<Row>, name: string)
    ensures AddColumn(DropColumn(rows, name), name) == AddColumn(rows, name)
  {
    var a, b := AddColumn(DropColumn(rows, name), name), AddColumn(rows, name);
    forall i | 0 <= i < |rows| ensures a[i] == b[i] {
      assert a[i].attrs == b[i].attrs;
    }
  }

  /** Removing an attribute field and its cells keeps a feature class consistent. */
  lemma ConsistentAfterDelete(desc: Describe, fields: seq<Field>, rows: seq<Row>, name: string)
    requires Consistent(desc, fields, rows)
    requires IsAttribute(desc, name)
    ensures Consistent(desc, RemoveField(fields, name), DropColumn(rows, name))
  {
    var fs := RemoveField(fields, name);
    RemoveFieldDistinct(fields, name);
    forall f | f in Names(fields) && f != name ensures f in Names(fs) {
      var i :| 0 <= i < |fields| && Names(fields)[i] == f;
      assert fields[i] in fs;
      var j :| 0 <= j < |fs| && fs[j] == fields[i];
      assert Names(fs)[j] == f;
    }
    forall f | f in Names(fs) ensures f in Names(fields) {
      var j :| 0 <= j < |fs| && Names(fs)[j] == f;
      assert fs[j] in fields;
      var i :| 0 <= i < |fields| && fields[i] == fs[j];
      assert Names(fields)[i] == f;
    }
    assert AttributeNames(desc, fs) == AttributeNames(desc, fields) - {name};
  }

  /** Appending a fresh attribute field with a null cell in every row keeps a
      feature class consistent. */
  lemma ConsistentAfterAdd(desc: Describe, fields: seq<Field>, rows: seq<Row>, name: string, fieldType: FieldType)
    requires Consistent(desc, fields, rows)
    requires name !in Names(fields) && name != IdToken && name != ShapeToken
    ensures Consistent(desc, fields + [Field(name, fieldType)], AddColumn(rows, name))
  {
    var fs := fields + [Field(name, fieldType)];
    assert Names(fs) == Names(fields) + [name];
    assert AttributeNames(desc, fs) == AttributeNames(desc, fields) + {name};
  }

  /** A field appended under a fresh name that is neither a cursor token nor
      the OID or shape field's name is an attribute field. */
  lemma AppendedAttribute(desc: Describe, fields: seq<Field>, name: string, fieldType: FieldType)
    requires desc.oidFieldName in Names(fields) && desc.shapeFieldName in Names(fields)
    requires name !in Names(fields) && name != IdToken && name != ShapeToken
    ensures name in AttributeNames(desc, fields + [Field(name, fieldType)])
  {
    assert Names(fields + [Field(name, fieldType)])[|fields|] == name;
  }

  /** A feature class: its describe snapshot, its field list and its rows. */
  class Feature {
    const desc: Describe
    var fields: seq<Field>
    const rows: array<Row>

    ghost predicate Valid()
      reads this, rows
    {
      Consistent(desc, fields, rows[..])
    }

    constructor (desc: Describe, fields: seq<Field>, rows: seq<Row>)
      requires Consistent(desc, fields, rows)
      ensures Valid() && fresh(this.rows)
      ensures this.desc == desc && this.fields == fields && this.rows[..] == rows
    {
      this.desc := desc;
      this.fields := fields;
      this.rows := new Row[|rows|](i requires 0 <= i < |rows| => rows[i]);
    }

    /** `[f.name for f in self.fields]` */
    function FieldNames(): (names: seq<string>)
      reads this
      ensures |names| == |fields|
      ensures forall i :: 0 <= i < |fields| ==> names[i] == fields[i].name
    {
      Names(fields)
    }

    /** Removes the cell of field `name` from every row, one row at a time. */
    method DropCells(name: string)
      modifies rows
      ensures rows[..] == DropColumn(old(rows[..]), name)
    {
      var i := 0;
      while i < rows.Length
        invariant 0 <= i <= rows.Length
        invariant forall j :: 0 <= j < i ==> rows[j] == old(rows[j]).(attrs := old(rows[j]).attrs - {name})
        invariant forall j :: i <= j < rows.Length ==> rows[j] == old(rows[j])
      {
        rows[i] := rows[i].(attrs := rows[i].attrs - {name});
        i := i + 1;
      }
    }

    /** Gives every row a null cell for field `name`, one row at a time. */
    method NullCells(name: string)
      modifies rows
      ensures rows[..] == AddColumn(old(rows[..]), name)
    {
      var i := 0;
      while i < rows.Length
        invariant 0 <= i <= rows.Length
        invariant forall j :: 0 <= j < i ==> rows[j] == old(rows[j]).(attrs := old(rows[j]).attrs[name := Null])
        invariant forall j :: i <= j < rows.Length ==> rows[j] == old(rows[j])
      {
        rows[i] := rows[i].(attrs := rows[i].attrs[name := Null]);
        i := i + 1;
      }
    }

    /** `DeleteField_management`: fails on a missing field and on the OID and
        shape fields; otherwise removes the field and its cell from every row. */
    method DeleteField(name: string) returns (ok: bool)
      requires Valid()
      modifies this, rows
      ensures Valid()
      ensures ok <==> name in old(FieldNames()) && IsAttribute(desc, name)
      ensures ok ==> fields == RemoveField(old(fields), name)
      ensures ok ==> rows[..] == DropColumn(old(rows[..]), name)
      ensures !ok ==> unchanged(this) && unchanged(rows)
    {
      if name !in FieldNames() || !IsAttribute(desc, name) {
        return false;
      }
      ConsistentAfterDelete(desc, fields, rows[..], name);
      DropCells(name);
      fields := RemoveField(fields, name);
      return true;
    }

    /** `AddField_management`: fails when the name is taken or is a cursor
        token; otherwise appends the field and gives every row a null cell. */
    method AddField(name: string, fieldType: FieldType) returns (ok: bool)
      requires Valid()
      modifies this, rows
      ensures Valid()
      ensures ok <==> name !in old(FieldNames()) && name != IdToken && name != ShapeToken
      ensures ok ==> fields == old(fields) + [Field(name, fieldType)]
      ensures ok ==> rows[..] == AddColumn(old(rows[..]), name)
      ensures !ok ==> unchanged(this) && unchanged(rows)
    {
      if name in FieldNames() || name == IdToken || name == ShapeToken {
        return false;
      }
      ConsistentAfterAdd(desc, fields, rows[..], name, fieldType);
      NullCells(name);
      fields := fields + [Field(name, fieldType)];
      return true;
    }
  }
}
