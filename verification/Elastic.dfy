/** Index mappings flattened to rows, and the longest running tasks. */
module Elastic {
  import opened Text
  import opened Sorting

  // ----- mappings

  /** The spec of a field: not a dict; a dict with its `type`, if any; or one whose
      `properties` are a dict too. */
  datatype Spec = NotDict | Plain(kind: Option<string>) | Nesting(kind: Option<string>, properties: seq<Field>)

  datatype Field = Field(name: string, spec: Spec)

  datatype Row = Row(index: string, field: string, kind: string, path: string)

  function KindOf(spec: Spec): string {
    if !spec.NotDict? && spec.kind.Some? then spec.kind.value else "object"
  }

  function Extend(prefix: string, name: string): string {
    if prefix != "" then prefix + "." + name else name
  }

  /** The rows of a property dict, each field before the fields below it. */
  function Flat(index: string, prefix: string, fields: seq<Field>): seq<Row>
    decreases fields
  {
    if fields == [] then []
    else
      var f := fields[0];
      FlatField(index, prefix, f) + Flat(index, prefix, fields[1..])
  }

  function FlatField(index: string, prefix: string, f: Field): seq<Row>
    decreases f
  {
    var path := Extend(prefix, f.name);
    [Row(index, f.name, KindOf(f.spec), path)]
    + match f.spec
      case Nesting(_, nested) => Flat(index, path, nested)
      case _ => []
  }

  class Rows {
    var rows: seq<Row>

    constructor ()
      ensures rows == []
    {
      rows := [];
    }

    /** `_flatten_properties`: appends to the caller's rows. */
    method FlattenProperties(index: string, prefix: string, properties: seq<Field>)
      modifies this
      ensures rows == old(rows) + Flat(index, prefix, properties)
      decreases properties
    {
      hide Extend, KindOf;
      assert properties[0..] == properties;
      for i := 0 to |properties|
        invariant rows + Flat(index, prefix, properties[i..]) == old(rows) + Flat(index, prefix, properties)
      {
        var f := properties[i];
        var path := Extend(prefix, f.name);
        ghost var before, rest := rows, Flat(index, prefix, properties[i + 1..]);
        assert properties[i..][1..] == properties[i + 1..];
        ghost var row := Row(index, f.name, KindOf(f.spec), path);
        rows := rows + [Row(index, f.name, KindOf(f.spec), path)];
        match f.spec {
          case Nesting(_, nested) =>
            assert f in properties && f.spec.properties == nested;
            FlattenProperties(index, path, nested);
            assert rows == before + [row] + Flat(index, path, nested);
          case _ =>
        }
        RowsOfField(index, prefix, f, before, rows, rest);
      }
      assert properties[|properties|..] == [];
      assert rows + [] == rows;
    }
  }

  lemma {:induction false} RowsOfField(index: string, prefix: string, f: Field, before: seq<Row>, after: seq<Row>,
                                       rest: seq<Row>)
    requires var path := Extend(prefix, f.name);
             after == before + [Row(index, f.name, KindOf(f.spec), path)]
                      + match f.spec case Nesting(_, nested) => Flat(index, path, nested) case _ => []
    ensures after + rest == before + (FlatField(index, prefix, f) + rest)
  {
    hide Extend, KindOf, Flat;
  }

  // ----- one row for each node

  function Nodes(fields: seq<Field>): nat
    decreases fields
  {
    if fields == [] then 0 else NodesOf(fields[0]) + Nodes(fields[1..])
  }

  function NodesOf(f: Field): nat
    decreases f
  {
    1 + match f.spec
        case Nesting(_, nested) => Nodes(nested)
        case _ => 0
  }

  lemma {:induction false} OneRowEach(index: string, prefix: string, fields: seq<Field>)
    ensures |Flat(index, prefix, fields)| == Nodes(fields)
    decreases fields
  {
    if fields != [] {
      var f := fields[0];
      match f.spec {
        case Nesting(_, nested) => OneRowEach(index, Extend(prefix, f.name), nested);
        case _ =>
      }
      OneRowEach(index, prefix, fields[1..]);
    }
  }

  // ----- what a row says

  /** A field's type is that of its spec, and `object` when the spec is no dict or has none. */
  function TypeOf(spec: Spec): string {
    match spec
    case NotDict => "object"
    case Plain(kind) => if kind.Some? then kind.value else "object"
    case Nesting(kind, _) => if kind.Some? then kind.value else "object"
  }

  ghost predicate IsRowOf(r: Row, index: string, prefix: string, f: Field) {
    && r.index == index && r.field == f.name && r.kind == TypeOf(f.spec)
    && r.path == if prefix == "" then f.name else prefix + "." + f.name
  }

  /** Each field of a mapping has its row, and a nesting one the rows of the fields below it
      under its own path. */
  lemma {:induction false} EveryFieldListed(index: string, prefix: string, fields: seq<Field>, f: Field)
    requires f in fields
    ensures exists r :: r in Flat(index, prefix, fields) && IsRowOf(r, index, prefix, f)
    ensures f.spec.Nesting? ==> forall r ::
              r in Flat(index, if prefix == "" then f.name else prefix + "." + f.name, f.spec.properties)
              ==> r in Flat(index, prefix, fields)
    decreases |fields|
  {
    if f == fields[0] {
      var own := FlatField(index, prefix, f);
      assert own[0] in own && IsRowOf(own[0], index, prefix, f);
    } else {
      EveryFieldListed(index, prefix, fields[1..], f);
    }
  }

  // ----- parents first

  /** Row i is a field of the mapping's own, or nests in a row before it. */
  ghost predicate Hangs(rows: seq<Row>, prefix: string, i: nat)
    requires i < |rows|
  {
    || rows[i].path == Extend(prefix, rows[i].field)
    || exists j :: 0 <= j < i && rows[i].path == Extend(rows[j].path, rows[i].field)
  }

  ghost predicate AllHang(rows: seq<Row>, prefix: string) {
    forall i :: 0 <= i < |rows| ==> Hangs(rows, prefix, i)
  }

  /** Whatever the names, no field comes before the field it nests in. */
  lemma {:induction false} ParentsFirst(index: string, prefix: string, fields: seq<Field>)
    ensures AllHang(Flat(index, prefix, fields), prefix)
    decreases fields
  {
    hide Extend;
    if fields != [] {
      var f := fields[0];
      ParentsFirst(index, prefix, fields[1..]);
      match f.spec {
        case Nesting(_, nested) =>
          var path := Extend(prefix, f.name);
          ParentsFirst(index, path, nested);
          HangsBelow(Row(index, f.name, KindOf(f.spec), path), Flat(index, path, nested), prefix);
        case _ =>
      }
      AllHangConcat(FlatField(index, prefix, f), Flat(index, prefix, fields[1..]), prefix);
    }
  }

  lemma {:induction false} HangsBelow(own: Row, sub: seq<Row>, prefix: string)
    requires own.path == Extend(prefix, own.field) && AllHang(sub, own.path)
    ensures AllHang([own] + sub, prefix)
  {
    hide Extend;
    var rows := [own] + sub;
    forall i | 0 <= i < |rows| ensures Hangs(rows, prefix, i) {
      if i > 0 {
        assert rows[i] == sub[i - 1] && Hangs(sub, own.path, i - 1);
        if sub[i - 1].path == Extend(own.path, sub[i - 1].field) {
          assert rows[0] == own;
        } else {
          var j :| 0 <= j < i - 1 && sub[i - 1].path == Extend(sub[j].path, sub[i - 1].field);
          assert rows[j + 1] == sub[j];
        }
      }
    }
  }

  lemma {:induction false} AllHangConcat(a: seq<Row>, b: seq<Row>, prefix: string)
    requires AllHang(a, prefix) && AllHang(b, prefix)
    ensures AllHang(a + b, prefix)
  {
    hide Extend;
    var rows := a + b;
    forall i | 0 <= i < |rows| ensures Hangs(rows, prefix, i) {
      if i < |a| {
        assert Hangs(a, prefix, i);
        if rows[i].path != Extend(prefix, rows[i].field) {
          var j :| 0 <= j < i && a[i].path == Extend(a[j].path, a[i].field);
          assert rows[j] == a[j];
        }
      } else {
        var k := i - |a|;
        assert rows[i] == b[k] && Hangs(b, prefix, k);
        if rows[i].path != Extend(prefix, rows[i].field) {
          var j :| 0 <= j < k && b[k].path == Extend(b[j].path, b[k].field);
          assert rows[|a| + j] == b[j];
        }
      }
    }
  }

  // ----- distinct paths

  predicate PlainName(n: string) { n != "" && '.' !in n }

  /** Names as a dict has them: each once; none empty, none with a dot. */
  predicate PlainNames(fields: seq<Field>)
    decreases fields
  {
    && (forall i, j :: 0 <= i < j < |fields| ==> fields[i].name != fields[j].name)
    && forall f :: f in fields ==> PlainField(f)
  }

  predicate PlainField(f: Field)
    decreases f
  {
    && PlainName(f.name)
    && match f.spec
       case Nesting(_, nested) => PlainNames(nested)
       case _ => true
  }

  /** The first part of a dotted path below a prefix, and whether anything follows it. */
  ghost predicate Below(path: string, prefix: string, name: string) {
    path == Extend(prefix, name) || Extend(prefix, name) + "." <= path
  }

  /** Names that are plain and different start different paths. */
  lemma {:induction false} BelowDiffer(prefix: string, a: string, b: string, p: string)
    requires PlainName(a) && PlainName(b) && Below(p, prefix, a) && Below(p, prefix, b)
    ensures a == b
  {
    var n := if prefix == "" then 0 else |prefix| + 1;
    var pa, pb := Extend(prefix, a), Extend(prefix, b);
    assert pa[n..] == a && pb[n..] == b;
    assert pa <= p && pb <= p;
    assert p[n..][..|a|] == a && p[n..][..|b|] == b;
    PrefixAgrees(p, n, a, b);
    PrefixAgrees(p, n, b, a);
  }

  /** Where a shorter name ends, the path has either its end, a dot, or the longer name. */
  lemma {:induction false} PrefixAgrees(p: string, n: nat, a: string, b: string)
    requires n + |a| <= |p| && n + |b| <= |p| && p[n..][..|a|] == a && p[n..][..|b|] == b && '.' !in b
    ensures |a| < |b| ==> n + |a| < |p| && p[n + |a|] == b[|a|] && p[n + |a|] != '.'
    ensures |a| == |b| ==> a == b
  {
    if |a| < |b| { assert b[|a|] in b; }
  }

  lemma {:induction false} RowsBelow(index: string, prefix: string, fields: seq<Field>, r: Row)
    requires r in Flat(index, prefix, fields)
    requires forall f :: f in fields ==> PlainField(f)
    ensures exists f :: f in fields && Below(r.path, prefix, f.name)
    decreases fields
  {
    var f := fields[0];
    assert f in fields;
    if r in FlatField(index, prefix, f) {
      RowsBelowField(index, prefix, f, r);
    } else {
      assert forall g :: g in fields[1..] ==> g in fields;
      RowsBelow(index, prefix, fields[1..], r);
    }
  }

  lemma {:induction false} RowsBelowField(index: string, prefix: string, f: Field, r: Row)
    requires r in FlatField(index, prefix, f) && PlainField(f)
    ensures Below(r.path, prefix, f.name)
    ensures r != FlatField(index, prefix, f)[0] ==> r.path != Extend(prefix, f.name)
    decreases f
  {
    var path := Extend(prefix, f.name);
    var own := Row(index, f.name, KindOf(f.spec), path);
    if r != own {
      var nested := f.spec.properties;
      assert r in Flat(index, path, nested);
      RowsBelow(index, path, nested, r);
      var g :| g in nested && Below(r.path, path, g.name);
      assert path + "." <= path + "." + g.name;
    }
  }

  ghost predicate DistinctRows(rows: seq<Row>) {
    forall i, j :: 0 <= i < j < |rows| ==> rows[i].path != rows[j].path
  }

  /** With plain names all paths of the flattened mapping are distinct. */
  lemma {:induction false} DistinctPaths(index: string, prefix: string, fields: seq<Field>)
    requires PlainNames(fields)
    ensures DistinctRows(Flat(index, prefix, fields))
    decreases fields
  {
    if fields != [] {
      var f, rest := fields[0], fields[1..];
      var a, b := FlatField(index, prefix, f), Flat(index, prefix, rest);
      assert f in fields && forall g :: g in rest ==> g in fields;
      assert forall i :: 0 <= i < |rest| ==> rest[i] == fields[i + 1];
      DistinctPaths(index, prefix, rest);
      DistinctField(index, prefix, f);
      forall r, s | r in a && s in b ensures r.path != s.path {
        RowsBelowField(index, prefix, f, r);
        RowsBelow(index, prefix, rest, s);
        var g :| g in rest && Below(s.path, prefix, g.name);
        var k :| 0 <= k < |rest| && rest[k] == g;
        assert fields[0].name != fields[k + 1].name;
        if r.path == s.path { BelowDiffer(prefix, f.name, g.name, r.path); }
      }
      DistinctConcat(a, b);
    }
  }

  lemma {:induction false} DistinctField(index: string, prefix: string, f: Field)
    requires PlainField(f)
    ensures DistinctRows(FlatField(index, prefix, f))
    decreases f
  {
    match f.spec
    case Nesting(_, nested) =>
      var path := Extend(prefix, f.name);
      var own, sub := [Row(index, f.name, KindOf(f.spec), path)], Flat(index, path, nested);
      DistinctPaths(index, path, nested);
      forall r, s | r in own && s in sub ensures r.path != s.path {
        RowsBelow(index, path, nested, s);
      }
      DistinctConcat(own, sub);
    case _ =>
  }

  lemma {:induction false} DistinctConcat(a: seq<Row>, b: seq<Row>)
    requires DistinctRows(a) && DistinctRows(b)
    requires forall r, s :: r in a && s in b ==> r.path != s.path
    ensures DistinctRows(a + b)
  {
  }

  // ----- running tasks

  /** A task of a node: not a dict, or its running time and the row it makes. */
  datatype Task = NoTask | Task(nanos: int, ref: string)

  datatype Activity = Activity(ref: string, duration: int)

  /** `int(x / 1_000_000)`: toward zero. */
  function Millis(nanos: int): int {
    if nanos >= 0 then nanos / 1000000 else -(-nanos / 1000000)
  }

  predicate Qualifies(t: Task, minimum: int) { t.Task? && Millis(t.nanos) >= minimum }

  function Qualifying(tasks: seq<Task>, minimum: int): seq<Activity> {
    if tasks == [] then []
    else
      Qualifying(tasks[..|tasks| - 1], minimum)
      + var t := tasks[|tasks| - 1]; if Qualifies(t, minimum) then [Activity(t.ref, Millis(t.nanos))] else []
  }

  function AllTasks(nodes: seq<seq<Task>>): seq<Task> {
    if nodes == [] then [] else AllTasks(nodes[..|nodes| - 1]) + nodes[|nodes| - 1]
  }

  predicate LongerFirst(a: Activity, b: Activity) { a.duration >= b.duration }

  /** Python's `rows[:limit]`. */
  function Take(rows: seq<Activity>, limit: int): (r: seq<Activity>)
    ensures r <= rows
    ensures var n := if limit < 0 then |rows| + limit else limit;
            |r| == if n < 0 then 0 else if n > |rows| then |rows| else n
  {
    var n := if limit < 0 then |rows| + limit else limit;
    rows[..if n < 0 then 0 else if n > |rows| then |rows| else n]
  }

  lemma {:induction false} QualifyingAppend(a: seq<Task>, b: seq<Task>, minimum: int)
    ensures Qualifying(a + b, minimum) == Qualifying(a, minimum) + Qualifying(b, minimum)
  {
    if b == [] {
      assert a + b == a;
    } else {
      assert (a + b)[..|a + b| - 1] == a + b[..|b| - 1];
      QualifyingAppend(a, b[..|b| - 1], minimum);
    }
  }

  /** `_activity_rows_from_tasks` */
  method ActivityRows(nodes: seq<seq<Task>>, limit: int, minimum: int) returns (r: seq<Activity>)
    ensures r == Take(Sort(LongerFirst, Qualifying(AllTasks(nodes), minimum)), limit)
  {
    hide Qualifies;
    var rows: seq<Activity> := [];
    for i := 0 to |nodes|
      invariant rows == Qualifying(AllTasks(nodes[..i]), minimum)
    {
      var tasks := nodes[i];
      ghost var before := rows;
      for k := 0 to |tasks|
        invariant rows == before + Qualifying(tasks[..k], minimum)
      {
        assert tasks[..k + 1][..k] == tasks[..k];
        if Qualifies(tasks[k], minimum) {
          QualifiesIsTask(tasks[k], minimum);
          rows := rows + [Activity(tasks[k].ref, Millis(tasks[k].nanos))];
        }
      }
      assert tasks[..|tasks|] == tasks;
      assert nodes[..i + 1][..i] == nodes[..i];
      QualifyingAppend(AllTasks(nodes[..i]), tasks, minimum);
    }
    assert nodes[..|nodes|] == nodes;
    r := Take(Sort(LongerFirst, rows), limit);
  }

  lemma {:induction false} QualifiesIsTask(t: Task, minimum: int)
    requires Qualifies(t, minimum)
    ensures t.Task?
  {
  }

  const MILLI := 1000000  // nanoseconds

  /** A task qualifies when it has run the minimum, in nanoseconds; below one millisecond the
      time counts as none, so a minimum of none or less takes in what lies within it. */
  lemma {:induction false} QualifiesDecides(t: Task, minimum: int)
    ensures Qualifies(t, minimum) <==>
            t.Task? && if minimum > 0 then t.nanos >= minimum * MILLI else t.nanos > (minimum - 1) * MILLI
  {
  }

  /** The duration shown is the running time in whole milliseconds, rounded toward zero. */
  lemma {:induction false} DurationShown(nanos: int)
    ensures nanos >= 0 ==> Millis(nanos) * MILLI <= nanos < (Millis(nanos) + 1) * MILLI
    ensures Millis(-nanos) == -Millis(nanos)
  {
  }

  /** What is selected from is exactly the tasks that qualify, each with its duration. */
  lemma {:induction false} QualifyingDecides(tasks: seq<Task>, minimum: int, a: Activity)
    ensures a in Qualifying(tasks, minimum) <==>
            exists t :: t in tasks && Qualifies(t, minimum) && a == Activity(t.ref, Millis(t.nanos))
  {
    hide Millis;
    if tasks != [] {
      var n := |tasks| - 1;
      QualifyingDecides(tasks[..n], minimum, a);
      assert tasks == tasks[..n] + [tasks[n]];
      assert forall t :: t in tasks <==> t in tasks[..n] || t == tasks[n];
    }
  }

  /** For a non-negative limit: as many rows as asked for or as qualify, longest first, and
      nothing left out is longer than anything returned. */
  lemma {:induction false} LongestTasks(tasks: seq<Task>, limit: nat, minimum: int)
    ensures var q := Qualifying(tasks, minimum);
            var s := Sort(LongerFirst, q);
            var r := Take(s, limit);
            && |r| == (if limit <= |q| then limit else |q|)
            && Sorted(LongerFirst, r)
            && multiset(r) + multiset(s[|r|..]) == multiset(q)
            && forall x, y :: x in r && y in s[|r|..] ==> x.duration >= y.duration
  {
    var q := Qualifying(tasks, minimum);
    var s := Sort(LongerFirst, q);
    var r := Take(s, limit);
    SortSorts(LongerFirst, q);
    assert s == r + s[|r|..];
    forall x, y | x in r && y in s[|r|..] ensures x.duration >= y.duration {
      var i :| 0 <= i < |r| && r[i] == x;
      var j :| 0 <= j < |s[|r|..]| && s[|r|..][j] == y;
      assert LongerFirst(s[i], s[|r| + j]);
    }
  }

  function OfDuration(rows: seq<Activity>, d: int): seq<Activity> {
    if rows == [] then []
    else (if rows[0].duration == d then [rows[0]] else []) + OfDuration(rows[1..], d)
  }

  lemma {:induction false} OfDurationCons(x: Activity, s: seq<Activity>, d: int)
    ensures OfDuration([x] + s, d) == (if x.duration == d then [x] else []) + OfDuration(s, d)
  {
    assert ([x] + s)[1..] == s;
  }

  lemma {:induction false} InsertStable(x: Activity, s: seq<Activity>, d: int)
    requires Sorted(LongerFirst, s)
    ensures OfDuration(Insert(LongerFirst, x, s), d) == (if x.duration == d then [x] else []) + OfDuration(s, d)
  {
    if s == [] || LongerFirst(x, s[0]) {
      OfDurationCons(x, s, d);
    } else {
      var t := Insert(LongerFirst, x, s[1..]);
      InsertStable(x, s[1..], d);
      OfDurationCons(s[0], t, d);
      assert x.duration != s[0].duration;
      if x.duration != d {
        assert [] + OfDuration(s[1..], d) == OfDuration(s[1..], d);
      } else {
        assert [] + OfDuration(t, d) == OfDuration(t, d);
        assert [] + OfDuration(s[1..], d) == OfDuration(s[1..], d);
      }
    }
  }

  /** Tasks of equal duration keep the order in which the nodes listed them. */
  lemma {:induction false} TiesKeepOrder(rows: seq<Activity>, d: int)
    ensures OfDuration(Sort(LongerFirst, rows), d) == OfDuration(rows, d)
  {
    if rows != [] {
      TiesKeepOrder(rows[1..], d);
      SortSorts(LongerFirst, rows[1..]);
      InsertStable(rows[0], Sort(LongerFirst, rows[1..]), d);
    }
  }
}
