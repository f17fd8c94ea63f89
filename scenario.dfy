/**
 * Two runs on a small polygon feature class with object ids 1, 2 and 3,
 * whose geometries are single-part, multipart and multipart, with any part
 * counts.
 */
module Scenario {
  import opened Options
  import opened PyDict
  import opened Sql
  import opened Dataset
  import opened Multipart

  const Parcels: Describe :=
    Describe("C:/data/land.gdb/Parcels", "Parcels", "C:/data/land.gdb", Polygon, "OBJECTID", "Shape")

  const BaseFields: seq<Field> := [Field("OBJECTID", OidType), Field("Shape", GeometryType)]

  function ParcelRows(p1: nat, p2: nat, p3: nat, attrs: map<string, Value>): seq<Row> {
    [ Row(1, Some(Geometry(p1, false)), attrs),
      Row(2, Some(Geometry(p2, true)), attrs),
      Row(3, Some(Geometry(p3, true)), attrs) ]
  }

  /** The scan finds ids 2 and 3, and the update clause names them in order. */
  lemma ScanAndQuery(p1: nat, p2: nat, p3: nat)
    ensures MultipartOids(ParcelRows(p1, p2, p3, map[])) == [2, 3]
    ensures InQuery("OBJECTID", [2, 3]) == "OBJECTID IN (2,3)"
  {
    var rows := ParcelRows(p1, p2, p3, map[]);
    assert rows[..2][..1] == rows[..1];
    assert MultipartOids(rows[..1]) == [] by {
      assert rows[..1][..0] == [];
    }
    assert MultipartOids(rows[..2]) == [2];
    QueryForTwoThree();
  }

  lemma QueryForTwoThree()
    ensures InQuery("OBJECTID", [2, 3]) == "OBJECTID IN (2,3)"
  {
    assert Decimals([2, 3]) == ["2", "3"];
    assert Text.Join(["2", "3"], ',') == "2,3";
  }

  const WithPartCount: seq<Field> := BaseFields + [Field("PartCount", ShortType)]

  /** The names here all differ in length, which is how they are told apart. */
  lemma NameLengths()
    ensures |"OBJECTID"| == 8 && |"Shape"| == 5 && |"PartCount"| == 9
    ensures |IdToken| == 4 && |ShapeToken| == 6
  {
  }

  lemma PartCountIsNew()
    ensures "PartCount" !in Names(BaseFields)
    ensures "PartCount" != IdToken && "PartCount" != ShapeToken
  {
    NameLengths();
    assert Names(BaseFields) == ["OBJECTID", "Shape"];
  }

  lemma ParcelsWellFormed()
    ensures DescribeWellFormed(Parcels)
  {
    NameLengths();
  }

  lemma BaseConsistent(p1: nat, p2: nat, p3: nat)
    ensures Consistent(Parcels, BaseFields, ParcelRows(p1, p2, p3, map[]))
  {
    ParcelsWellFormed();
    NameLengths();
    assert Names(BaseFields) == ["OBJECTID", "Shape"];
    assert AttributeNames(Parcels, BaseFields) == {};
  }

  lemma WithPartCountConsistent(p1: nat, p2: nat, p3: nat)
    ensures Consistent(Parcels, WithPartCount, ParcelRows(p1, p2, p3, map["PartCount" := Null]))
  {
    ParcelsWellFormed();
    var rows := ParcelRows(p1, p2, p3, map["PartCount" := Null]);
    assert UniqueOids(rows);
    assert forall i :: 0 <= i < |rows| ==> rows[i].attrs.Keys == {"PartCount"};
    var ns := Names(WithPartCount);
    assert ns == ["OBJECTID", "Shape", "PartCount"];
    assert Distinct(ns) && IdToken !in ns && ShapeToken !in ns by {
      NameLengths();
    }
    assert AttributeNames(Parcels, WithPartCount) == {"PartCount"} by {
      NameLengths();
    }
  }

  /** The scan finds two multipart rows. */
  lemma ParcelsCounted(p1: nat, p2: nat, p3: nat, attrs: map<string, Value>)
    ensures |MultipartCounts(ParcelRows(p1, p2, p3, attrs))| == 2
  {
    var rows := ParcelRows(p1, p2, p3, attrs);
    assert rows[..2][..1] == rows[..1];
    assert MultipartOids(rows[..1]) == [] by {
      assert rows[..1][..0] == [];
    }
    assert MultipartOids(rows) == [2, 3];
    MultipartCountsSpec(rows);
    assert |Keys(MultipartCounts(rows))| == 2;
  }

  /** The update leaves the part counts in rows 2 and 3 and a null in row 1. */
  lemma ParcelsUpdated(p1: nat, p2: nat, p3: nat, attrs: map<string, Value>)
    ensures UpdatedRows(ParcelRows(p1, p2, p3, attrs), "PartCount") ==
      [ Row(1, Some(Geometry(p1, false)), attrs["PartCount" := Null]),
        Row(2, Some(Geometry(p2, true)), attrs["PartCount" := Int(p2)]),
        Row(3, Some(Geometry(p3, true)), attrs["PartCount" := Int(p3)]) ]
  {
    UpdatedRowsSpec(ParcelRows(p1, p2, p3, attrs), "PartCount");
  }

  /** Default field name, no overwrite, not report-only: the field is added,
      ids 2 and 3 get their part counts, id 1 keeps a null. */
  method AddsPartCount(p1: nat, p2: nat, p3: nat) returns (outcome: Outcome, fields: seq<Field>, rows: seq<Row>)
    ensures outcome == Updated(2)
    ensures fields == WithPartCount
    ensures rows == [
      Row(1, Some(Geometry(p1, false)), map["PartCount" := Null]),
      Row(2, Some(Geometry(p2, true)), map["PartCount" := Int(p2)]),
      Row(3, Some(Geometry(p3, true)), map["PartCount" := Int(p3)]) ]
  {
    BaseConsistent(p1, p2, p3);
    var feature := new Feature(Parcels, BaseFields, ParcelRows(p1, p2, p3, map[]));
    ParcelsCounted(p1, p2, p3, map[]);
    ParcelsUpdated(p1, p2, p3, map[]);
    var catalog := map["Parcels" := feature];
    outcome := CountMultipart(catalog, "Parcels", "PartCount", false, false);
    PartCountIsNew();
    RemoveFieldAbsent(BaseFields, "PartCount");
    fields, rows := feature.fields, feature.rows[..];
  }

  /** With "PartCount" already present and overwrite off, the run fails and
      nothing changes. */
  method RefusesExistingField(p1: nat, p2: nat, p3: nat) returns (outcome: Outcome, fields: seq<Field>, rows: seq<Row>)
    ensures outcome == FieldExists
    ensures fields == WithPartCount
    ensures rows == ParcelRows(p1, p2, p3, map["PartCount" := Null])
  {
    WithPartCountConsistent(p1, p2, p3);
    var feature := new Feature(Parcels, WithPartCount, ParcelRows(p1, p2, p3, map["PartCount" := Null]));
    ParcelsCounted(p1, p2, p3, map["PartCount" := Null]);
    assert feature.FieldNames()[2] == "PartCount";
    outcome := CountMultipart(map["Parcels" := feature], "Parcels", "PartCount", false, false);
    fields, rows := feature.fields, feature.rows[..];
  }
}
