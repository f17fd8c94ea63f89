/**
 * The where-clause the update cursor is opened with:
 * `<OID field> IN (<k1>,<k2>,...)`, and the reading of it that decides which
 * rows a cursor visits. Only this one form of clause is given a meaning; the
 * model does not evaluate SQL in general.
 */
module Sql {
  import opened Options
  import opened Text

  function Decimals(keys: seq<int>): (parts: seq<string>)
    ensures |parts| == |keys|
    ensures forall i :: 0 <= i < |keys| ==> parts[i] == IntToString(keys[i])
  {
    seq(|keys|, i requires 0 <= i < |keys| => IntToString(keys[i]))
  }

  /** The text `f"{oidFieldName} IN ({','.join(str(k) for k in keys)})"`. */
  function InQuery(oidFieldName: string, keys: seq<int>): (q: string)
    ensures |q| == |oidFieldName| + 6 + |Join(Decimals(keys), ',')|
    ensures q[..|oidFieldName| + 5] == oidFieldName + " IN ("
    ensures q[|q| - 1] == ')'
    ensures q[|oidFieldName| + 5..|q| - 1] == Join(Decimals(keys), ',')
    ensures forall c :: c in q[|oidFieldName| + 5..|q| - 1] ==> c == ',' || c == '-' || IsDigit(c)
  {
    var body := Join(Decimals(keys), ',');
    var q := oidFieldName + " IN (" + body + ")";
    assert q[|oidFieldName| + 5..|q| - 1] == body;
    q
  }

  /** Reads pieces as integers, failing if any piece is not one. */
  function ParseInts(pieces: seq<string>): (r: Option<seq<int>>)
    ensures r.Some? ==> |r.value| == |pieces|
  {
    if |pieces| == 0 then Some([])
    else match (ParseInt(pieces[0]), ParseInts(pieces[1..]))
      case (Some(k), Some(ks)) => Some([k] + ks)
      case _ => None
  }

  /** The integer list of an `<oidFieldName> IN (...)` clause, or `None` when
      the text is not such a clause. */
  function ParseInQuery(query: string, oidFieldName: string): Option<seq<int>> {
    var prefix := oidFieldName + " IN (";
    if |query| < |prefix| + 1 || query[..|prefix|] != prefix || query[|query| - 1] != ')' then None
    else ParseInts(Split(query[|prefix|..|query| - 1], ','))
  }

  /** Whether a row with this object id satisfies the clause. */
  predicate SelectsOid(query: string, oidFieldName: string, oid: int) {
    match ParseInQuery(query, oidFieldName)
    case Some(ks) => oid in ks
    case None => false
  }

  lemma {:induction false} ParseDecimals(keys: seq<int>)
    ensures ParseInts(Decimals(keys)) == Some(keys)
  {
    if |keys| > 0 {
      ParseIntToString(keys[0]);
      assert Decimals(keys)[1..] == Decimals(keys[1..]);
      ParseDecimals(keys[1..]);
      assert [keys[0]] + keys[1..] == keys;
    }
  }

  /** The clause built from a non-empty key list reads back as exactly that
      list, so it selects a row if and only if the row's id is one of the keys. */
  lemma InQueryRoundTrip(oidFieldName: string, keys: seq<int>)
    requires |keys| > 0
    ensures ParseInQuery(InQuery(oidFieldName, keys), oidFieldName) == Some(keys)
    ensures forall oid :: SelectsOid(InQuery(oidFieldName, keys), oidFieldName, oid) <==> oid in keys
  {
    var prefix := oidFieldName + " IN (";
    var body := Join(Decimals(keys), ',');
    var q := InQuery(oidFieldName, keys);
    assert q == prefix + body + ")";
    assert q[..|prefix|] == prefix;
    assert q[|prefix|..|q| - 1] == body;
    forall i | 0 <= i < |keys| ensures ',' !in Decimals(keys)[i] {
      var s := Decimals(keys)[i];
      assert forall k :: 0 <= k < |s| ==> s[k] != ',';
    }
    SplitJoin(Decimals(keys), ',');
    ParseDecimals(keys);
  }

  /** With no keys the clause reads `<oid> IN ()`, which names no integer at
      all and is not a valid list. */
  lemma EmptyInQueryRejected(oidFieldName: string)
    ensures ParseInQuery(InQuery(oidFieldName, []), oidFieldName) == None
  {
    var prefix := oidFieldName + " IN (";
    var q := InQuery(oidFieldName, []);
    assert q == prefix + ")";
    assert q[..|prefix|] == prefix;
    assert q[|prefix|..|q| - 1] == "";
  }
}
