/** The customer acceptance matrix against the totals and the exit code. */
module Matrix {
  import opened Sorting

  datatype CheckResult = CheckResult(target: string, domain: string, ok: bool, skipped: bool, promised: bool)

  type Key = (string, string)

  /** The counters of a row. */
  datatype Row = Row(promised: bool, passed: nat, skipped: nat, failed: nat, promisedSkipped: nat)

  const EMPTY_ROW := Row(false, 0, 0, 0, 0)

  datatype Status = Fail | Unverified | Pass

  /** `run_check` records an answer, `add_skip` a skip: a skipped result is always ok. */
  function RunCheck(target: string, domain: string, ok: bool, promised: bool): CheckResult {
    CheckResult(target, domain, ok, false, promised)
  }

  function AddSkip(target: string, domain: string, promised: bool): CheckResult {
    CheckResult(target, domain, true, true, promised)
  }

  predicate Recorded(r: CheckResult) {
    r == RunCheck(r.target, r.domain, r.ok, r.promised) || r == AddSkip(r.target, r.domain, r.promised)
  }

  function KeyOf(r: CheckResult): Key { (r.target, r.domain) }

  function Count(row: Row, r: CheckResult): Row {
    var row' := row.(promised := row.promised || r.promised);
    if r.skipped then
      row'.(skipped := row'.skipped + 1, promisedSkipped := row'.promisedSkipped + if r.promised then 1 else 0)
    else if r.ok then row'.(passed := row'.passed + 1)
    else row'.(failed := row'.failed + 1)
  }

  // ----- what a row means: the results of its key

  function Select(results: seq<CheckResult>, p: CheckResult -> bool): nat {
    if results == [] then 0
    else Select(results[..|results| - 1], p) + if p(results[|results| - 1]) then 1 else 0
  }

  predicate Passed(r: CheckResult) { !r.skipped && r.ok }

  predicate Skipped(r: CheckResult) { r.skipped }

  predicate Failed(r: CheckResult) { !r.skipped && !r.ok }

  predicate PromisedSkipped(r: CheckResult) { r.skipped && r.promised }

  predicate NotOk(r: CheckResult) { !r.ok }

  function In(results: seq<CheckResult>, key: Key): seq<CheckResult> {
    if results == [] then []
    else In(results[..|results| - 1], key)
         + var r := results[|results| - 1]; if KeyOf(r) == key then [r] else []
  }

  ghost predicate RowMeans(row: Row, rs: seq<CheckResult>) {
    && row.passed == Select(rs, Passed) && row.skipped == Select(rs, Skipped)
    && row.failed == Select(rs, Failed) && row.promisedSkipped == Select(rs, PromisedSkipped)
    && (row.promised <==> exists r :: r in rs && r.promised)
  }

  predicate KeyLe(a: Key, b: Key) { LexLe(StrLe, [a.0, a.1], [b.0, b.1]) }

  /** `summarize_matrix`: the rows in key order. */
  method SummarizeMatrix(results: seq<CheckResult>) returns (keys: seq<Key>, rows: seq<Row>)
    ensures StrictlySorted(KeyLe, keys) && |rows| == |keys|
    ensures forall k :: k in keys <==> exists r :: r in results && KeyOf(r) == k
    ensures forall i :: 0 <= i < |keys| ==> RowMeans(rows[i], In(results, keys[i]))
    ensures forall i :: 0 <= i < |keys| ==> CountsOf(rows[i], results, keys[i].0, keys[i].1)
    ensures forall target, domain :: (target, domain) in keys <==>
              exists r :: r in results && r.target == target && r.domain == domain
  {
    hide KeyLe, RowMeans, In, CountsOf;
    var matrix: map<Key, Row> := map[];
    for i := 0 to |results|
      invariant Tallies(matrix, results[..i])
    {
      var result := results[i];
      var key := KeyOf(result);
      var row := if key in matrix then matrix[key] else EMPTY_ROW;
      ghost var counted := Count(row, result);
      row := row.(promised := row.promised || result.promised);
      if result.skipped {
        row := row.(skipped := row.skipped + 1);
        if result.promised {
          row := row.(promisedSkipped := row.promisedSkipped + 1);
        }
      } else if result.ok {
        row := row.(passed := row.passed + 1);
      } else {
        row := row.(failed := row.failed + 1);
      }
      assert row == counted;
      TallyStep(matrix, results[..i], result);
      assert results[..i + 1] == results[..i] + [result];
      matrix := matrix[key := row];
    }
    assert results[..|results|] == results;
    keys := SortedKeys(matrix.Keys);
    rows := seq(|keys|, i requires 0 <= i < |keys| && keys[i] in matrix => matrix[keys[i]]);
    forall i | 0 <= i < |keys| ensures CountsOf(rows[i], results, keys[i].0, keys[i].1) {
      RowCounts(rows[i], results, keys[i].0, keys[i].1);
    }
  }

  /** The row counts the results of one target and one domain. */
  ghost predicate CountsOf(row: Row, results: seq<CheckResult>, target: string, domain: string) {
    && row.passed == Select(results, (r: CheckResult) => Of(r, target, domain) && !r.skipped && r.ok)
    && row.failed == Select(results, (r: CheckResult) => Of(r, target, domain) && !r.skipped && !r.ok)
    && row.skipped == Select(results, (r: CheckResult) => Of(r, target, domain) && r.skipped)
    && row.promisedSkipped
       == Select(results, (r: CheckResult) => Of(r, target, domain) && r.skipped && r.promised)
    && (row.promised <==> exists r :: r in results && Of(r, target, domain) && r.promised)
  }

  predicate Of(r: CheckResult, target: string, domain: string) { r.target == target && r.domain == domain }

  lemma {:induction false} SelectIn(results: seq<CheckResult>, target: string, domain: string,
                                    p: CheckResult -> bool, q: CheckResult -> bool)
    requires forall r :: q(r) <==> Of(r, target, domain) && p(r)
    ensures Select(In(results, (target, domain)), p) == Select(results, q)
  {
    if results != [] {
      var (n, key) := (|results| - 1, (target, domain));
      SelectIn(results[..n], target, domain, p, q);
      SelectAppend(In(results[..n], key), results[n], p);
      assert In(results[..n], key) + [] == In(results[..n], key);
    }
  }

  lemma {:induction false} InElements(results: seq<CheckResult>, target: string, domain: string)
    ensures forall r :: r in In(results, (target, domain)) <==> r in results && Of(r, target, domain)
  {
    if results != [] {
      var n := |results| - 1;
      InElements(results[..n], target, domain);
      assert results == results[..n] + [results[n]];
    }
  }

  lemma {:induction false} RowCounts(row: Row, results: seq<CheckResult>, target: string, domain: string)
    requires RowMeans(row, In(results, (target, domain)))
    ensures CountsOf(row, results, target, domain)
  {
    hide Select, In, Of;
    SelectIn(results, target, domain, Passed, (r: CheckResult) => Of(r, target, domain) && !r.skipped && r.ok);
    SelectIn(results, target, domain, Failed, (r: CheckResult) => Of(r, target, domain) && !r.skipped && !r.ok);
    SelectIn(results, target, domain, Skipped, (r: CheckResult) => Of(r, target, domain) && r.skipped);
    SelectIn(results, target, domain, PromisedSkipped,
             (r: CheckResult) => Of(r, target, domain) && r.skipped && r.promised);
    InElements(results, target, domain);
  }

  /** The dictionary holds one row for each key met, counting the results of that key. */
  ghost predicate Tallies(matrix: map<Key, Row>, rs: seq<CheckResult>) {
    && (forall k :: k in matrix <==> exists r :: r in rs && KeyOf(r) == k)
    && (forall k :: k in matrix ==> RowMeans(matrix[k], In(rs, k)))
  }

  lemma {:induction false} TallyStep(matrix: map<Key, Row>, rs: seq<CheckResult>, r: CheckResult)
    requires Tallies(matrix, rs)
    ensures Tallies(matrix[KeyOf(r) := Count(if KeyOf(r) in matrix then matrix[KeyOf(r)] else EMPTY_ROW, r)], rs + [r])
  {
    hide RowMeans, In, Count;
    var key := KeyOf(r);
    var row := if key in matrix then matrix[key] else EMPTY_ROW;
    var grown := matrix[key := Count(row, r)];
    if key !in matrix {
      FreshRow(rs, key);
    }
    CountMeans(row, In(rs, key), r);
    forall k | k in grown ensures RowMeans(grown[k], In(rs + [r], k)) {
      InAppend(rs, r, k);
      if k != key { assert In(rs, k) + [] == In(rs, k); }
    }
    forall k ensures k in grown <==> exists x :: x in rs + [r] && KeyOf(x) == k {
      if k in grown {
        if k == key {
          assert r in rs + [r];
        } else {
          var x :| x in rs && KeyOf(x) == k;
          assert x in rs + [r];
        }
      }
    }
  }

  lemma {:induction false} InAppend(rs: seq<CheckResult>, r: CheckResult, key: Key)
    ensures In(rs + [r], key) == In(rs, key) + if KeyOf(r) == key then [r] else []
  {
    assert (rs + [r])[..|rs|] == rs;
  }

  lemma {:induction false} FreshRow(rs: seq<CheckResult>, key: Key)
    requires forall r :: r in rs ==> KeyOf(r) != key
    ensures In(rs, key) == [] && RowMeans(EMPTY_ROW, In(rs, key))
  {
    if rs != [] {
      assert rs[|rs| - 1] in rs;
      FreshRow(rs[..|rs| - 1], key);
    }
  }

  lemma {:induction false} CountMeans(row: Row, rs: seq<CheckResult>, r: CheckResult)
    requires RowMeans(row, rs)
    ensures RowMeans(Count(row, r), rs + [r])
  {
    assert (rs + [r])[..|rs|] == rs;
    assert forall x :: x in rs + [r] <==> x in rs || x == r;
  }

  /** `sorted(matrix)` */
  method SortedKeys(keys: set<Key>) returns (s: seq<Key>)
    ensures StrictlySorted(KeyLe, s) && forall k :: k in s <==> k in keys
  {
    hide KeyLe;
    s := [];
    var rest := keys;
    KeyLeTotal();
    while rest != {}
      invariant rest <= keys && StrictlySorted(KeyLe, s)
      invariant forall k :: k in s <==> k in keys && k !in rest
      decreases |rest|
    {
      var k :| k in rest;
      InsertNew(k, s);
      s := Insert(KeyLe, k, s);
      rest := rest - {k};
    }
  }

  lemma {:induction false} KeyLeTotal()
    ensures TotalOrder(KeyLe)
  {
    StrLeTotalOrder();
    forall a, b ensures (KeyLe(a, b) || KeyLe(b, a)) && (KeyLe(a, b) && KeyLe(b, a) ==> a == b) {
      LexTotal(StrLe, [a.0, a.1], [b.0, b.1]);
      assert [a.0, a.1] == [b.0, b.1] ==> [a.0, a.1][0] == [b.0, b.1][0] && [a.0, a.1][1] == [b.0, b.1][1];
    }
    forall a, b, c | KeyLe(a, b) && KeyLe(b, c) ensures KeyLe(a, c) {
      LexTransitive(StrLe, [a.0, a.1], [b.0, b.1], [c.0, c.1]);
    }
  }

  lemma {:induction false} InsertElements(k: Key, s: seq<Key>)
    ensures forall x :: x in Insert(KeyLe, k, s) <==> x == k || x in s
  {
    hide KeyLe;
    assert multiset(Insert(KeyLe, k, s)) == multiset([k] + s);
    SameElements([k] + s, Insert(KeyLe, k, s));
    assert forall x :: x in [k] + s <==> x == k || x in s;
  }

  lemma {:induction false} InsertNew(k: Key, s: seq<Key>)
    requires TotalOrder(KeyLe) && StrictlySorted(KeyLe, s) && k !in s
    ensures StrictlySorted(KeyLe, Insert(KeyLe, k, s))
    ensures forall x :: x in Insert(KeyLe, k, s) <==> x == k || x in s
  {
    hide KeyLe;
    InsertElements(k, s);
    if s == [] || KeyLe(k, s[0]) {
      forall j | 0 <= j < |s| ensures KeyLe(k, s[j]) && !KeyLe(s[j], k) {
        assert s[j] in s;
        if j > 0 { assert KeyLe(s[0], s[j]); }
      }
    } else {
      assert forall x :: x in s[1..] ==> x in s;
      InsertNew(k, s[1..]);
      HeadBelow(k, s);
    }
  }

  lemma {:induction false} HeadBelow(k: Key, s: seq<Key>)
    requires TotalOrder(KeyLe) && StrictlySorted(KeyLe, s) && s != [] && !KeyLe(k, s[0])
    requires StrictlySorted(KeyLe, Insert(KeyLe, k, s[1..]))
    ensures StrictlySorted(KeyLe, [s[0]] + Insert(KeyLe, k, s[1..]))
  {
    hide KeyLe;
    var t := Insert(KeyLe, k, s[1..]);
    InsertElements(k, s[1..]);
    forall j | 0 <= j < |t| ensures KeyLe(s[0], t[j]) && !KeyLe(t[j], s[0]) {
      assert t[j] in t;
      if t[j] != k {
        var m :| 0 <= m < |s[1..]| && s[1..][m] == t[j];
        assert s[m + 1] == t[j];
      }
    }
  }

  // ----- totals

  function StatusOf(row: Row): Status {
    if row.failed > 0 then Fail else if row.promisedSkipped > 0 then Unverified else Pass
  }

  datatype Totals = Totals(passed: int, skipped: nat, failed: nat, promisedSkipped: nat)

  /** The totals of `main`. */
  function TotalsOf(results: seq<CheckResult>): Totals {
    var failed, skipped := Select(results, NotOk), Select(results, Skipped);
    Totals(|results| - failed - skipped, skipped, failed, Select(results, PromisedSkipped))
  }

  /** The exit code of `main`, once the targets have been validated. */
  function ExitCode(results: seq<CheckResult>, strict: bool): int {
    var t := TotalsOf(results);
    if t.failed > 0 then 1 else if strict && t.promisedSkipped > 0 then 1 else 0
  }

  function Sum(rows: seq<Row>, f: Row -> nat): nat {
    if rows == [] then 0 else f(rows[0]) + Sum(rows[1..], f)
  }

  /** The number of results with p, summed over a list of keys. */
  function SumSelect(results: seq<CheckResult>, keys: seq<Key>, p: CheckResult -> bool): nat {
    if keys == [] then 0 else Select(In(results, keys[0]), p) + SumSelect(results, keys[1..], p)
  }

  lemma {:induction false} SelectAppend(rs: seq<CheckResult>, r: CheckResult, p: CheckResult -> bool)
    ensures Select(rs + [r], p) == Select(rs, p) + if p(r) then 1 else 0
  {
    assert (rs + [r])[..|rs|] == rs;
  }

  lemma {:induction false} HeadOnce(keys: seq<Key>)
    requires Distinct(keys) && keys != []
    ensures keys[0] !in keys[1..]
  {
    assert forall j :: 0 <= j < |keys[1..]| ==> keys[1..][j] == keys[j + 1];
  }

  /** One more result counts under its own key only. */
  lemma {:induction false} SumSelectAppend(rs: seq<CheckResult>, r: CheckResult, keys: seq<Key>, p: CheckResult -> bool)
    requires Distinct(keys)
    ensures SumSelect(rs + [r], keys, p) == SumSelect(rs, keys, p) + if p(r) && KeyOf(r) in keys then 1 else 0
  {
    if keys != [] {
      InAppend(rs, r, keys[0]);
      SelectAppend(In(rs, keys[0]), r, p);
      assert Distinct(keys[1..]);
      SumSelectAppend(rs, r, keys[1..], p);
      if KeyOf(r) == keys[0] {
        assert In(rs + [r], keys[0]) == In(rs, keys[0]) + [r];
        HeadOnce(keys);
      } else {
        assert In(rs + [r], keys[0]) == In(rs, keys[0]);
      }
    }
  }

  lemma {:induction false} SumSelectNone(keys: seq<Key>, p: CheckResult -> bool)
    ensures SumSelect([], keys, p) == 0
  {
    if keys != [] { SumSelectNone(keys[1..], p); }
  }

  /** Nothing is lost or counted twice: over keys that cover the results, the counts of the
      rows add up to the count over all results. */
  lemma {:induction false} CountsAddUp(results: seq<CheckResult>, keys: seq<Key>, p: CheckResult -> bool)
    requires Distinct(keys) && forall r :: r in results ==> KeyOf(r) in keys
    ensures SumSelect(results, keys, p) == Select(results, p)
  {
    if results == [] {
      SumSelectNone(keys, p);
    } else {
      var n := |results| - 1;
      assert results == results[..n] + [results[n]] && results[n] in results;
      assert forall r :: r in results[..n] ==> r in results;
      CountsAddUp(results[..n], keys, p);
      SumSelectAppend(results[..n], results[n], keys, p);
    }
  }

  /** The rows are those `summarize_matrix` returns. */
  ghost predicate IsMatrix(results: seq<CheckResult>, keys: seq<Key>, rows: seq<Row>) {
    && StrictlySorted(KeyLe, keys) && |rows| == |keys|
    && (forall k :: k in keys <==> exists r :: r in results && KeyOf(r) == k)
    && forall i :: 0 <= i < |keys| ==> RowMeans(rows[i], In(results, keys[i]))
  }

  lemma {:induction false} SumOfRows(results: seq<CheckResult>, keys: seq<Key>, rows: seq<Row>)
    requires |rows| == |keys| && forall i :: 0 <= i < |keys| ==> RowMeans(rows[i], In(results, keys[i]))
    ensures Sum(rows, (r: Row) => r.passed) == SumSelect(results, keys, Passed)
    ensures Sum(rows, (r: Row) => r.skipped) == SumSelect(results, keys, Skipped)
    ensures Sum(rows, (r: Row) => r.failed) == SumSelect(results, keys, Failed)
    ensures Sum(rows, (r: Row) => r.promisedSkipped) == SumSelect(results, keys, PromisedSkipped)
  {
    if keys != [] {
      SumOfRows(results, keys[1..], rows[1..]);
    }
  }

  lemma {:induction false} PartsOfAll(results: seq<CheckResult>)
    requires forall r :: r in results ==> Recorded(r)
    ensures Select(results, NotOk) == Select(results, Failed)
    ensures |results| == Select(results, Passed) + Select(results, Skipped) + Select(results, Failed)
  {
    if results != [] {
      var n := |results| - 1;
      assert results[n] in results && forall r :: r in results[..n] ==> r in results;
      PartsOfAll(results[..n]);
    }
  }

  /** The rows add up to the totals of `main`, and to the number of results. */
  lemma {:induction false} MatrixAddsUp(results: seq<CheckResult>, keys: seq<Key>, rows: seq<Row>)
    requires IsMatrix(results, keys, rows) && forall r :: r in results ==> Recorded(r)
    ensures var t := TotalsOf(results);
            && t.passed == Sum(rows, (r: Row) => r.passed) && t.skipped == Sum(rows, (r: Row) => r.skipped)
            && t.failed == Sum(rows, (r: Row) => r.failed)
            && t.promisedSkipped == Sum(rows, (r: Row) => r.promisedSkipped)
            && t.passed + t.skipped + t.failed == |results|
  {
    hide KeyLe, RowMeans;
    KeyLeTotal();
    CountsAddUp(results, keys, Passed);
    CountsAddUp(results, keys, Skipped);
    CountsAddUp(results, keys, Failed);
    CountsAddUp(results, keys, PromisedSkipped);
    SumOfRows(results, keys, rows);
    PartsOfAll(results);
  }

  lemma {:induction false} SumZero(rows: seq<Row>, f: Row -> nat)
    ensures Sum(rows, f) == 0 <==> forall i :: 0 <= i < |rows| ==> f(rows[i]) == 0
  {
    if rows != [] {
      SumZero(rows[1..], f);
      assert forall i :: 0 <= i < |rows[1..]| ==> rows[1..][i] == rows[i + 1];
      if f(rows[0]) == 0 && forall i :: 0 <= i < |rows[1..]| ==> f(rows[1..][i]) == 0 {
        forall i | 0 <= i < |rows| ensures f(rows[i]) == 0 {
          if i > 0 { assert rows[i] == rows[1..][i - 1]; }
        }
      }
      if forall i :: 0 <= i < |rows| ==> f(rows[i]) == 0 {
        forall i | 0 <= i < |rows[1..]| ensures f(rows[1..][i]) == 0 { assert rows[i + 1] == rows[1..][i]; }
      }
    }
  }

  /** Under `--strict-promised` the exit code is 0 exactly when every row is PASS, otherwise
      exactly when no row is FAIL. */
  lemma {:induction false} GateAgrees(results: seq<CheckResult>, keys: seq<Key>, rows: seq<Row>, strict: bool)
    requires IsMatrix(results, keys, rows) && forall r :: r in results ==> Recorded(r)
    ensures ExitCode(results, strict) == 0 <==>
            forall i :: 0 <= i < |rows| ==> if strict then StatusOf(rows[i]) == Pass else StatusOf(rows[i]) != Fail
  {
    hide IsMatrix;
    MatrixAddsUp(results, keys, rows);
    SumZero(rows, (r: Row) => r.failed);
    SumZero(rows, (r: Row) => r.promisedSkipped);
  }
}
