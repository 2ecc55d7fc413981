/** `json.dumps(..., sort_keys=True)`: the canonical text determines the value up to the
    order of object members, and nothing else. */
module JsonCanonical {
  import opened Text
  import opened Sorting
  import opened Json
  import opened JsonRoundTrip

  predicate KeyLe(a: Member, b: Member) { StrLe(a.key, b.key) }

  /** The value with the members of every object sorted by key. */
  function Canon(v: Json): Json {
    match v
    case Arr(items) => Arr(seq(|items|, i requires 0 <= i < |items| => Canon(items[i])))
    case Obj(ms) => Obj(Sort(KeyLe, seq(|ms|, i requires 0 <= i < |ms| => Member(ms[i].key, Canon(ms[i].value)))))
    case _ => v
  }

  /** Equality up to the order of object members. */
  ghost predicate Same(v: Json, w: Json)
    decreases v
  {
    match (v, w)
    case (Arr(a), Arr(b)) => |a| == |b| && forall i :: 0 <= i < |a| ==> Same(a[i], b[i])
    case (Obj(a), Obj(b)) => SameMembers(a, b)
    case (Arr(_), _) => false
    case (Obj(_), _) => false
    case _ => v == w
  }

  ghost predicate SameMembers(a: seq<Member>, b: seq<Member>)
    decreases a, 1
  {
    && (forall i :: 0 <= i < |a| ==> HasTwin(a[i], b))
    && (forall j :: 0 <= j < |b| ==> IsTwin(a, b[j]))
  }

  ghost predicate Twins(m: Member, n: Member)
    decreases m, 0
  {
    m.key == n.key && Same(m.value, n.value)
  }

  ghost predicate HasTwin(m: Member, b: seq<Member>)
    decreases m, 1
  {
    exists j :: 0 <= j < |b| && Twins(m, b[j])
  }

  ghost predicate IsTwin(a: seq<Member>, n: Member)
    decreases a, 0
  {
    exists i :: 0 <= i < |a| && Twins(a[i], n)
  }

  /** `json.dumps(v, ensure_ascii=False, sort_keys=True, separators=(",", ":"))` */
  function CanonicalText(v: Json): string { Print(Canon(v), COMPACT, 0) }

  /** The members of an object with each value put in canonical form, in their old order. */
  function CanonMembers(ms: seq<Member>): (r: seq<Member>)
    ensures |r| == |ms| && forall i :: 0 <= i < |ms| ==> r[i] == Member(ms[i].key, Canon(ms[i].value))
  {
    seq(|ms|, i requires 0 <= i < |ms| => Member(ms[i].key, Canon(ms[i].value)))
  }

  lemma {:induction false} CanonObject(ms: seq<Member>)
    ensures Canon(Obj(ms)) == Obj(Sort(KeyLe, CanonMembers(ms)))
  {
    assert CanonMembers(ms) == seq(|ms|, i requires 0 <= i < |ms| => Member(ms[i].key, Canon(ms[i].value)));
  }

  lemma {:induction false} KeyLePreorder()
    ensures TotalPreorder(KeyLe)
    ensures forall a, b :: KeyLe(a, b) && KeyLe(b, a) ==> a.key == b.key
  {
    StrLeTotalOrder();
    forall a, b ensures KeyLe(a, b) || KeyLe(b, a) {
      assert StrLe(a.key, b.key) || StrLe(b.key, a.key);
    }
    forall a, b, c | KeyLe(a, b) && KeyLe(b, c) ensures KeyLe(a, c) {
      assert StrLe(a.key, b.key) && StrLe(b.key, c.key);
    }
  }

  /** Each key occurs once: said of the multiset, so that sorting keeps it. */
  lemma {:induction false} DistinctByCount(ms: seq<Member>)
    ensures DistinctKeys(ms) <==>
            forall a, b :: a in ms && b in ms && a.key == b.key ==> a == b && multiset(ms)[a] == 1
  {
    if DistinctKeys(ms) {
      forall a, b | a in ms && b in ms && a.key == b.key ensures a == b && multiset(ms)[a] == 1 {
        CountOnce(ms, a);
      }
    }
    forall i, j | 0 <= i < j < |ms| && ms[i] == ms[j] ensures multiset(ms)[ms[i]] >= 2 {
      CountTwice(ms, i, j);
    }
    if forall a, b :: a in ms && b in ms && a.key == b.key ==> a == b && multiset(ms)[a] == 1 {
      forall i, j | 0 <= i < j < |ms| ensures ms[i].key != ms[j].key {
        assert ms[i] in ms && ms[j] in ms;
      }
    }
  }

  lemma {:induction false} CountOnce(ms: seq<Member>, a: Member)
    requires DistinctKeys(ms) && a in ms
    ensures multiset(ms)[a] == 1
  {
    var i :| 0 <= i < |ms| && ms[i] == a;
    assert ms == ms[..i] + [a] + ms[i + 1..];
    assert a !in ms[..i] && a !in ms[i + 1..];
  }

  lemma {:induction false} SameCount(a: seq<Member>, b: seq<Member>)
    requires multiset(a) == multiset(b) && DistinctKeys(a)
    ensures DistinctKeys(b)
  {
    DistinctByCount(a);
    DistinctByCount(b);
    SameElements(a, b);
  }

  /** Sorting the members of a dict: strictly increasing keys, the same members. */
  lemma {:induction false} SortedMembers(ms: seq<Member>)
    requires DistinctKeys(ms)
    ensures StrictlySorted(KeyLe, Sort(KeyLe, ms))
    ensures DistinctKeys(Sort(KeyLe, ms))
    ensures forall m :: m in Sort(KeyLe, ms) <==> m in ms
  {
    var r := Sort(KeyLe, ms);
    KeyLePreorder();
    SortSorts(KeyLe, ms);
    SameElements(ms, r);
    SameCount(ms, r);
    forall i, j | 0 <= i < j < |r| ensures KeyLe(r[i], r[j]) && !KeyLe(r[j], r[i]) {
      assert r[i].key != r[j].key;
    }
  }

  lemma {:induction false} CanonMembersDistinct(ms: seq<Member>)
    requires DistinctKeys(ms)
    ensures DistinctKeys(CanonMembers(ms))
  {
  }

  lemma {:induction false} CanonWellFormed(v: Json)
    requires WellFormed(v)
    ensures WellFormed(Canon(v))
  {
    match v
    case Arr(items) =>
      forall x | x in Canon(v).items ensures WellFormed(x) {
        var i :| 0 <= i < |items| && x == Canon(items[i]);
        assert items[i] in items;
        CanonWellFormed(items[i]);
      }
    case Obj(ms) =>
      CanonObject(ms);
      CanonMembersDistinct(ms);
      SortedMembers(CanonMembers(ms));
      forall m | m in Canon(v).members ensures WellFormed(m.value) {
        var i :| 0 <= i < |ms| && m == CanonMembers(ms)[i];
        assert ms[i] in ms;
        CanonWellFormed(ms[i].value);
      }
    case _ =>
  }

  /** Canonical forms coincide exactly on equal values. */
  lemma {:induction false} CanonDecides(v: Json, w: Json)
    requires WellFormed(v) && WellFormed(w)
    ensures Canon(v) == Canon(w) <==> Same(v, w)
    decreases v
  {
    match (v, w)
    case (Arr(a), Arr(b)) =>
      forall i | 0 <= i < |a| && |a| == |b| ensures Canon(a[i]) == Canon(b[i]) <==> Same(a[i], b[i]) {
        assert a[i] in a && b[i] in b;
        CanonDecides(a[i], b[i]);
      }
      if Canon(v) == Canon(w) {
        assert forall i :: 0 <= i < |a| ==> Canon(v).items[i] == Canon(a[i]) && Canon(w).items[i] == Canon(b[i]);
      }
    case (Obj(a), Obj(b)) => CanonDecidesObjects(a, b);
    case _ =>
  }

  lemma {:induction false} CanonDecidesObjects(a: seq<Member>, b: seq<Member>)
    requires WellFormed(Obj(a)) && WellFormed(Obj(b))
    ensures Canon(Obj(a)) == Canon(Obj(b)) <==> Same(Obj(a), Obj(b))
    decreases a, 2
  {
    CanonDecidesMembers(a, b);
    CanonObject(a);
    CanonObject(b);
  }

  lemma {:induction false} CanonDecidesMembers(a: seq<Member>, b: seq<Member>)
    requires WellFormed(Obj(a)) && WellFormed(Obj(b))
    ensures Sort(KeyLe, CanonMembers(a)) == Sort(KeyLe, CanonMembers(b)) <==> SameMembers(a, b)
    decreases a, 1
  {
    CanonDecidesTwins(a, b);
    SortedCanonAgree(a, b);
  }

  lemma {:induction false} SortedCanonAgree(a: seq<Member>, b: seq<Member>)
    requires DistinctKeys(a) && DistinctKeys(b)
    ensures Sort(KeyLe, CanonMembers(a)) == Sort(KeyLe, CanonMembers(b)) <==>
            (forall i :: 0 <= i < |a| ==> CanonMembers(a)[i] in CanonMembers(b))
            && (forall j :: 0 <= j < |b| ==> CanonMembers(b)[j] in CanonMembers(a))
  {
    CanonMembersDistinct(a);
    CanonMembersDistinct(b);
    SortedMembers(CanonMembers(a));
    SortedMembers(CanonMembers(b));
    SortedAgree(CanonMembers(a), CanonMembers(b));
  }

  lemma {:induction false} CanonDecidesTwins(a: seq<Member>, b: seq<Member>)
    requires WellFormed(Obj(a)) && WellFormed(Obj(b))
    ensures forall i :: 0 <= i < |a| ==> (HasTwin(a[i], b) <==> CanonMembers(a)[i] in CanonMembers(b))
    ensures forall j :: 0 <= j < |b| ==> (IsTwin(a, b[j]) <==> CanonMembers(b)[j] in CanonMembers(a))
    decreases a, 0, 1
  {
    forall i | 0 <= i < |a| ensures HasTwin(a[i], b) <==> CanonMembers(a)[i] in CanonMembers(b) {
      assert a[i] in a;
      CanonDecidesTwin(a[i], b);
    }
    forall j | 0 <= j < |b| ensures IsTwin(a, b[j]) <==> CanonMembers(b)[j] in CanonMembers(a) {
      assert b[j] in b;
      CanonDecidesTwinOf(a, b[j]);
    }
  }

  lemma {:induction false} CanonDecidesTwin(m: Member, b: seq<Member>)
    requires WellFormed(m.value) && WellFormed(Obj(b))
    ensures HasTwin(m, b) <==> Member(m.key, Canon(m.value)) in CanonMembers(b)
    decreases m
  {
    forall j | 0 <= j < |b|
      ensures Twins(m, b[j]) <==> Member(m.key, Canon(m.value)) == CanonMembers(b)[j]
    {
      assert b[j] in b;
      CanonDecides(m.value, b[j].value);
    }
  }

  lemma {:induction false} CanonDecidesTwinOf(a: seq<Member>, n: Member)
    requires WellFormed(Obj(a)) && WellFormed(n.value)
    ensures IsTwin(a, n) <==> Member(n.key, Canon(n.value)) in CanonMembers(a)
    decreases a, 0, 0
  {
    forall i | 0 <= i < |a|
      ensures Twins(a[i], n) <==> CanonMembers(a)[i] == Member(n.key, Canon(n.value))
    {
      assert a[i] in a;
      CanonDecides(a[i].value, n.value);
    }
  }

  /** Sorting two dicts gives the same list exactly when they have the same members. */
  lemma {:induction false} SortedAgree(a: seq<Member>, b: seq<Member>)
    requires StrictlySorted(KeyLe, Sort(KeyLe, a)) && StrictlySorted(KeyLe, Sort(KeyLe, b))
    ensures Sort(KeyLe, a) == Sort(KeyLe, b) <==>
            (forall i :: 0 <= i < |a| ==> a[i] in b) && (forall j :: 0 <= j < |b| ==> b[j] in a)
  {
    SameElements(a, Sort(KeyLe, a));
    SameElements(b, Sort(KeyLe, b));
    assert forall i :: 0 <= i < |a| ==> a[i] in a;
    assert forall j :: 0 <= j < |b| ==> b[j] in b;
    if (forall i :: 0 <= i < |a| ==> a[i] in b) && (forall j :: 0 <= j < |b| ==> b[j] in a) {
      StrictlySortedUnique(KeyLe, Sort(KeyLe, a), Sort(KeyLe, b));
    }
  }

  lemma {:induction false} CanonSame(v: Json)
    requires WellFormed(v)
    ensures Same(Canon(v), v)
  {
    match v
    case Arr(items) =>
      forall i | 0 <= i < |items| ensures Same(Canon(v).items[i], items[i]) {
        assert items[i] in items;
        CanonSame(items[i]);
      }
    case Obj(ms) =>
      var cs := CanonMembers(ms);
      CanonObject(ms);
      forall j | 0 <= j < |ms| ensures Twins(cs[j], ms[j]) {
        assert ms[j] in ms;
        CanonSame(ms[j].value);
      }
      TwinsSurviveSorting(cs, ms);
    case _ =>
  }

  lemma {:induction false} TwinsSurviveSorting(cs: seq<Member>, ms: seq<Member>)
    requires |cs| == |ms| && forall j :: 0 <= j < |ms| ==> Twins(cs[j], ms[j])
    ensures var r := Sort(KeyLe, cs);
            (forall i :: 0 <= i < |r| ==> HasTwin(r[i], ms)) && (forall j :: 0 <= j < |ms| ==> IsTwin(r, ms[j]))
  {
    var r := Sort(KeyLe, cs);
    SameElements(cs, r);
    forall i | 0 <= i < |r| ensures HasTwin(r[i], ms) {
      assert r[i] in r;
      var j :| 0 <= j < |cs| && cs[j] == r[i];
      assert Twins(r[i], ms[j]);
    }
    forall j | 0 <= j < |ms| ensures IsTwin(r, ms[j]) {
      assert cs[j] in cs && cs[j] in r;
      var i :| 0 <= i < |r| && r[i] == cs[j];
      assert Twins(r[i], ms[j]);
    }
  }

  lemma {:induction false} CanonIdempotent(v: Json)
    requires WellFormed(v)
    ensures Canon(Canon(v)) == Canon(v)
  {
    CanonWellFormed(v);
    CanonSame(v);
    CanonDecides(Canon(v), v);
  }

  /** Two payloads have the same canonical text exactly when they are the same value. */
  lemma {:induction false} CanonicalTextDecides(v: Json, w: Json)
    requires WellFormed(v) && WellFormed(w)
    ensures CanonicalText(v) == CanonicalText(w) <==> Same(v, w)
  {
    CanonWellFormed(v);
    CanonWellFormed(w);
    CanonDecides(v, w);
    LoadsPrint(Canon(v), COMPACT, 0, "");
    LoadsPrint(Canon(w), COMPACT, 0, "");
    assert CanonicalText(v) + "" == CanonicalText(v) && CanonicalText(w) + "" == CanonicalText(w);
  }

  /** Re-reading a document written with sorted keys, in any layout, gives the canonical
      form of what was written. */
  lemma {:induction false} RereadCanonical(v: Json, st: Style, post: string)
    requires WellFormed(v) && ValidStyle(st) && All(IsJsonSpace, post)
    ensures Loads(Print(Canon(v), st, 0) + post) == Some(Canon(v))
    ensures CanonicalText(Canon(v)) == CanonicalText(v)
  {
    CanonWellFormed(v);
    CanonIdempotent(v);
    LoadsPrint(Canon(v), st, 0, post);
  }

  lemma {:induction false} GetIn(ms: seq<Member>, m: Member)
    requires DistinctKeys(ms) && m in ms
    ensures Get(ms, m.key) == Some(m.value)
  {
    var r := Get(ms, m.key);
    var i :| 0 <= i < |ms| && ms[i] == m;
    var j :| 0 <= j < |ms| && ms[j] == Member(m.key, r.value);
  }

  /** Looking a key up in the sorted object finds the canonical form of its value. */
  lemma {:induction false} GetCanon(ms: seq<Member>, key: string)
    requires DistinctKeys(ms)
    ensures var r := Get(Canon(Obj(ms)).members, key);
            r == match Get(ms, key) case Some(v) => Some(Canon(v)) case None => None
  {
    var cs := CanonMembers(ms);
    CanonObject(ms);
    CanonMembersDistinct(ms);
    SortedMembers(cs);
    match Get(ms, key)
    case Some(v) =>
      var i :| 0 <= i < |ms| && ms[i] == Member(key, v);
      assert cs[i] in cs;
      GetIn(Sort(KeyLe, cs), cs[i]);
    case None =>
      forall m | m in Sort(KeyLe, cs) ensures m.key != key {
        var i :| 0 <= i < |cs| && cs[i] == m;
        assert ms[i] in ms;
      }
  }

  // ----- what the canonical text looks like

  /** The keys of every object are in increasing order, each once. */
  ghost predicate KeysIncrease(v: Json) {
    match v
    case Arr(items) => forall x :: x in items ==> KeysIncrease(x)
    case Obj(ms) => StrictlySorted(KeyLe, ms) && forall m :: m in ms ==> KeysIncrease(m.value)
    case _ => true
  }

  lemma {:induction false} CanonIncreases(v: Json)
    requires WellFormed(v)
    ensures KeysIncrease(Canon(v))
  {
    match v
    case Arr(items) =>
      forall x | x in Canon(v).items ensures KeysIncrease(x) {
        var i :| 0 <= i < |items| && x == Canon(items[i]);
        assert items[i] in items;
        CanonIncreases(items[i]);
      }
    case Obj(ms) =>
      CanonObject(ms);
      CanonMembersDistinct(ms);
      SortedMembers(CanonMembers(ms));
      forall m | m in Canon(v).members ensures KeysIncrease(m.value) {
        var i :| 0 <= i < |ms| && m == CanonMembers(ms)[i];
        assert ms[i] in ms;
        CanonIncreases(ms[i].value);
      }
    case _ =>
  }

  /** No layout of a value is shorter than the compact one: nothing is put between its parts
      but one comma or colon. */
  lemma {:induction false} CompactShortest(v: Json, st: Style, d: nat, e: nat)
    requires ValidStyle(st)
    ensures |Print(v, COMPACT, d)| <= |Print(v, st, e)|
    decreases v, 1
  {
    match v
    case Arr(items) => if items != [] { CompactItems(items, st, d + 1, e + 1); }
    case Obj(ms) => if ms != [] { CompactMembers(ms, st, d + 1, e + 1); }
    case _ =>
  }

  lemma {:induction false} CompactItems(items: seq<Json>, st: Style, d: nat, e: nat)
    requires ValidStyle(st) && items != []
    ensures |PrintItems(items, COMPACT, d)| <= |PrintItems(items, st, e)|
    decreases items, 0
  {
    hide Print;
    CompactShortest(items[0], st, d, e);
    if |items| > 1 { CompactItems(items[1..], st, d, e); }
  }

  lemma {:induction false} CompactMembers(ms: seq<Member>, st: Style, d: nat, e: nat)
    requires ValidStyle(st) && ms != []
    ensures |PrintMembers(ms, COMPACT, d)| <= |PrintMembers(ms, st, e)|
    decreases ms, 0
  {
    hide Print;
    CompactShortest(ms[0].value, st, d, e);
    if |ms| > 1 { CompactMembers(ms[1..], st, d, e); }
  }

  // ----- what the reader returns

  lemma {:induction false} PutDistinct(ms: seq<Member>, key: string, v: Json)
    requires DistinctKeys(ms)
    ensures DistinctKeys(Put(ms, key, v))
    ensures forall m :: m in Put(ms, key, v) ==> m == Member(key, v) || m in ms
  {
    if ms != [] && ms[0].key != key {
      PutDistinct(ms[1..], key, v);
      var r := Put(ms[1..], key, v);
      forall j | 0 <= j < |r| ensures r[j].key != ms[0].key {
        assert r[j] in r;
      }
    }
  }

  /** Every value the decoder returns has distinct keys, whatever the text. */
  lemma {:induction false} DecodeWellFormed(s: string)
    ensures DecodeValue(s).Some? ==> WellFormed(DecodeValue(s).value.0)
    decreases |s|, 2
  {
    if s != "" && s[0] == '[' {
      DecodeItemsWellFormed(SkipSpace(s[1..]));
    } else if s != "" && s[0] == '{' {
      DecodeMembersWellFormed(SkipSpace(s[1..]), []);
    } else {
      NumberWellFormed(s);
    }
  }

  lemma {:induction false} NumberWellFormed(s: string)
    ensures DecodeNumber(s).Some? ==> WellFormed(DecodeNumber(s).value.0)
  {
  }

  lemma {:induction false} DecodeItemsWellFormed(s: string)
    ensures DecodeItems(s).Some? ==> forall x :: x in DecodeItems(s).value.0 ==> WellFormed(x)
    decreases |s|, 3
  {
    DecodeWellFormed(s);
    if DecodeItems(s).Some? {
      var t := SkipSpace(DecodeValue(s).value.1);
      if t[0] == ',' {
        DecodeItemsWellFormed(SkipSpace(t[1..]));
      }
    }
  }

  lemma {:induction false} DecodeMemberWellFormed(s: string)
    ensures DecodeMember(s).Some? ==> WellFormed(DecodeMember(s).value.0.value)
    decreases |s|, 3
  {
    if DecodeMember(s).Some? {
      DecodeWellFormed(SkipSpace(SkipSpace(ScanString(s[1..]).value.1)[1..]));
    }
  }

  lemma {:induction false} DecodeMembersWellFormed(s: string, acc: seq<Member>)
    requires WellFormed(Obj(acc))
    ensures DecodeMembers(s, acc).Some? ==> WellFormed(Obj(DecodeMembers(s, acc).value.0))
    decreases |s|, 4
  {
    DecodeMemberWellFormed(s);
    if DecodeMembers(s, acc).Some? {
      var (m, rest) := DecodeMember(s).value;
      PutDistinct(acc, m.key, m.value);
      var t := SkipSpace(rest);
      if t[0] == ',' {
        DecodeMembersWellFormed(SkipSpace(t[1..]), Put(acc, m.key, m.value));
      }
    }
  }

  lemma {:induction false} LoadsWellFormed(s: string)
    ensures Loads(s).Some? ==> WellFormed(Loads(s).value)
  {
    DecodeWellFormed(SkipSpace(s));
  }
}
