/** The Oracle capacity fallback: which candidate query's rows are shown. */
module OracleCapacity {
  import opened Text

  datatype Value = Null | Number(n: real) | Words(s: string)

  /** What running a candidate query gives: an error, or named columns and rows. */
  datatype ResultSet = Failed | Fetched(columns: seq<string>, rows: seq<seq<Value>>)

  type Record = map<string, Value>

  /** `value or 0` is not zero. */
  predicate Truthy(v: Value) {
    match v
    case Null => false
    case Number(n) => n != 0.0
    case Words(s) => s != ""
  }

  /** The last column of that lower-cased name, among the first n. */
  function LastNamed(columns: seq<string>, name: string, n: nat): (r: Option<nat>)
    requires n <= |columns|
    ensures r.Some? ==> r.value < n && Lower(columns[r.value]) == name
    ensures forall i :: (if r.None? then 0 else r.value + 1) <= i < n ==> Lower(columns[i]) != name
  {
    if n == 0 then None
    else if Lower(columns[n - 1]) == name then Some(n - 1)
    else LastNamed(columns, name, n - 1)
  }

  function Shorter(columns: seq<string>, row: seq<Value>): nat {
    if |columns| <= |row| then |columns| else |row|
  }

  function Zip(columns: seq<string>, row: seq<Value>, n: nat): Record
    requires n <= |columns| && n <= |row|
  {
    if n == 0 then map[] else Zip(columns, row, n - 1)[Lower(columns[n - 1]) := row[n - 1]]
  }

  /** `dict(zip(columns, row))` with lower-cased names. */
  function ToRecord(columns: seq<string>, row: seq<Value>): Record { Zip(columns, row, Shorter(columns, row)) }

  /** Of two columns with one name the later wins, and what has no partner is dropped. */
  lemma {:induction false} LaterColumnWins(columns: seq<string>, row: seq<Value>, name: string, n: nat)
    requires n <= |columns| && n <= |row|
    ensures var i := LastNamed(columns, name, n);
            if i.None? then name !in Zip(columns, row, n)
            else name in Zip(columns, row, n) && Zip(columns, row, n)[name] == row[i.value]
  {
    hide Lower;
    if n > 0 { LaterColumnWins(columns, row, name, n - 1); }
  }

  /** A record has a name exactly when some column of that name has a value in the row. */
  lemma {:induction false} RecordNames(columns: seq<string>, row: seq<Value>, name: string)
    ensures name in ToRecord(columns, row) <==>
            exists i :: 0 <= i < |columns| && i < |row| && Lower(columns[i]) == name
  {
    hide Lower;
    LaterColumnWins(columns, row, name, Shorter(columns, row));
  }

  function Records(rs: ResultSet): (r: seq<Record>)
    ensures rs.Fetched? ==> |r| == |rs.rows| && forall i :: 0 <= i < |r| ==> r[i] == ToRecord(rs.columns, rs.rows[i])
  {
    if rs.Failed? then [] else seq(|rs.rows|, i requires 0 <= i < |rs.rows| => ToRecord(rs.columns, rs.rows[i]))
  }

  predicate HasSize(r: Record) { "total_size" in r && Truthy(r["total_size"]) }

  predicate Answered(rs: ResultSet) { rs.Fetched? && rs.rows != [] }

  predicate Sized(rs: ResultSet) { rs.Fetched? && exists r :: r in Records(rs) && HasSize(r) }

  /** A non-zero size, as the driver hands it over. */
  predicate Size(v: Value) { (v.Number? && v.n != 0.0) || (v.Words? && v.s != "") }

  /** The row has a non-zero value in the last of its columns named `total_size`, in whatever
      case. */
  predicate RowSized(columns: seq<string>, row: seq<Value>) {
    var c := LastNamed(columns, "total_size", Shorter(columns, row));
    c.Some? && Size(row[c.value])
  }

  lemma {:induction false} RowSizedDecides(columns: seq<string>, row: seq<Value>)
    ensures HasSize(ToRecord(columns, row)) <==> RowSized(columns, row)
  {
    hide LastNamed, Zip;
    LaterColumnWins(columns, row, "total_size", Shorter(columns, row));
  }

  /** A candidate counts as sized exactly when some row of it is. */
  lemma {:induction false} SizedDecides(rs: ResultSet)
    ensures Sized(rs) <==> rs.Fetched? && exists row :: row in rs.rows && RowSized(rs.columns, row)
  {
    hide ToRecord, RowSized, HasSize;
    if rs.Fetched? {
      var records := Records(rs);
      forall i | 0 <= i < |records| ensures HasSize(records[i]) <==> RowSized(rs.columns, rs.rows[i]) {
        RowSizedDecides(rs.columns, rs.rows[i]);
      }
      if r :| r in records && HasSize(r) {
        var i :| 0 <= i < |records| && records[i] == r;
        assert rs.rows[i] in rs.rows;
      }
      if row :| row in rs.rows && RowSized(rs.columns, row) {
        var i :| 0 <= i < |rs.rows| && rs.rows[i] == row;
        assert records[i] in records;
      }
    }
  }

  ghost predicate FirstSized(candidates: seq<ResultSet>, i: int) {
    0 <= i < |candidates| && Sized(candidates[i]) && forall j :: 0 <= j < i ==> !Sized(candidates[j])
  }

  ghost predicate FirstAnswered(candidates: seq<ResultSet>, i: int) {
    0 <= i < |candidates| && Answered(candidates[i]) && forall j :: 0 <= j < i ==> !Answered(candidates[j])
  }

  ghost predicate NoneSized(candidates: seq<ResultSet>) { forall rs :: rs in candidates ==> !Sized(rs) }

  /** `get_tables_metas_data`: `candidates[i]` is what the i-th query would give, and `asked`
      how many of them are run. The first with a size is shown and ends the search; without
      one, the first that has rows at all; else nothing. */
  method TablesMetas(candidates: seq<ResultSet>) returns (shown: seq<Record>, asked: nat)
    ensures forall i :: FirstSized(candidates, i) ==> shown == Records(candidates[i]) && asked == i + 1
    ensures NoneSized(candidates) ==> asked == |candidates|
    ensures NoneSized(candidates) ==> forall i :: FirstAnswered(candidates, i) ==> shown == Records(candidates[i])
    ensures (forall rs :: rs in candidates ==> !Answered(rs)) ==> shown == []
  {
    hide Truthy, HasSize, Records;
    var last: Option<ResultSet> := None;
    var zeroSizeRows: Option<seq<Record>> := None;
    asked := 0;
    while asked < |candidates|
      invariant asked <= |candidates|
      invariant forall j :: 0 <= j < asked ==> !Sized(candidates[j])
      invariant last == if asked == 0 then None else Some(candidates[asked - 1])
      invariant zeroSizeRows.None? ==> forall j :: 0 <= j < asked ==> !Answered(candidates[j])
      invariant zeroSizeRows.Some? ==> exists i :: FirstAnswered(candidates, i) && i < asked
                                                   && zeroSizeRows.value == Records(candidates[i])
    {
      var rs := candidates[asked];
      last := Some(rs);
      asked := asked + 1;
      if rs.Fetched? {
        var rows := Records(rs);
        if rows != [] && exists r :: r in rows && HasSize(r) {
          assert Sized(rs) && Answered(rs) && rs in candidates;
          return rows, asked;
        }
        if rows != [] && zeroSizeRows.None? {
          zeroSizeRows := Some(rows);
          assert FirstAnswered(candidates, asked - 1);
        }
      }
    }
    if zeroSizeRows.Some? {
      return zeroSizeRows.value, asked;
    }
    if last.None? || last.value.Failed? {
      return [], asked;
    }
    shown := Records(last.value);
  }
}
