/** Orders and stable insertion sort: what Python's `sorted` promises. */
module Sorting {

  ghost predicate TotalPreorder<T(!new)>(le: (T, T) -> bool) {
    && (forall a, b :: le(a, b) || le(b, a))
    && (forall a, b, c :: le(a, b) && le(b, c) ==> le(a, c))
  }

  ghost predicate TotalOrder<T(!new)>(le: (T, T) -> bool) {
    TotalPreorder(le) && forall a, b :: le(a, b) && le(b, a) ==> a == b
  }

  ghost predicate Sorted<T>(le: (T, T) -> bool, s: seq<T>) {
    forall i, j :: 0 <= i < j < |s| ==> le(s[i], s[j])
  }

  ghost predicate StrictlySorted<T>(le: (T, T) -> bool, s: seq<T>) {
    forall i, j :: 0 <= i < j < |s| ==> le(s[i], s[j]) && !le(s[j], s[i])
  }

  function Insert<T>(le: (T, T) -> bool, x: T, s: seq<T>): (r: seq<T>)
    ensures multiset(r) == multiset{x} + multiset(s)
    ensures |r| == |s| + 1
  {
    if s == [] || le(x, s[0]) then [x] + s
    else
      assert s == [s[0]] + s[1..];
      [s[0]] + Insert(le, x, s[1..])
  }

  function Sort<T>(le: (T, T) -> bool, s: seq<T>): (r: seq<T>)
    ensures multiset(r) == multiset(s)
    ensures |r| == |s|
  {
    if s == [] then []
    else
      assert s == [s[0]] + s[1..];
      Insert(le, s[0], Sort(le, s[1..]))
  }

  lemma SameElements<T>(s: seq<T>, r: seq<T>)
    requires multiset(s) == multiset(r)
    ensures forall x :: x in s <==> x in r
  {
    forall x ensures x in s <==> x in r {
      assert x in s <==> x in multiset(s);
      assert x in r <==> x in multiset(r);
    }
  }

  ghost predicate Distinct<T>(s: seq<T>) {
    forall i, j :: 0 <= i < j < |s| ==> s[i] != s[j]
  }

  lemma {:induction false} CountTwice<T>(s: seq<T>, i: nat, j: nat)
    requires i < j < |s| && s[i] == s[j]
    ensures multiset(s)[s[i]] >= 2
  {
    assert s == s[..i] + [s[i]] + s[i + 1..];
    assert s[i + 1..][j - i - 1] == s[j];
    assert s[i] in s[i + 1..];
  }

  lemma {:induction false} InsertSorts<T(!new)>(le: (T, T) -> bool, x: T, s: seq<T>)
    requires TotalPreorder(le) && Sorted(le, s)
    ensures Sorted(le, Insert(le, x, s))
  {
    if s == [] {
    } else if le(x, s[0]) {
      var r := [x] + s;
      forall i, j | 0 <= i < j < |r| ensures le(r[i], r[j]) {
        assert r[j] == s[j - 1] && le(s[0], s[j - 1]);
      }
    } else {
      var t := Insert(le, x, s[1..]);
      InsertSorts(le, x, s[1..]);
      var r := [s[0]] + t;
      forall i, j | 0 <= i < j < |r| ensures le(r[i], r[j]) {
        if i == 0 {
          assert t[j - 1] in multiset(t);
          assert t[j - 1] == x || t[j - 1] in s[1..];
        } else {
          assert r[i] == t[i - 1] && r[j] == t[j - 1];
        }
      }
    }
  }

  lemma {:induction false} SortSorts<T(!new)>(le: (T, T) -> bool, s: seq<T>)
    requires TotalPreorder(le)
    ensures Sorted(le, Sort(le, s))
  {
    if s != [] {
      SortSorts(le, s[1..]);
      InsertSorts(le, s[0], Sort(le, s[1..]));
    }
  }

  /** The head of a strictly sorted sequence is not in its tail, and nothing is below it. */
  lemma {:induction false} HeadIsLeast<T>(le: (T, T) -> bool, s: seq<T>, x: T)
    requires StrictlySorted(le, s) && s != []
    ensures x in s[1..] <==> x in s && x != s[0]
    ensures x in s && x != s[0] ==> !le(x, s[0])
  {
    if x in s {
      var i :| 0 <= i < |s| && s[i] == x;
      if i > 0 { assert s[1..][i - 1] == x; }
    }
    if x in s[1..] {
      var k :| 0 <= k < |s[1..]| && s[1..][k] == x;
      assert s[k + 1] == x && !le(x, s[0]) && le(s[0], x);
    }
  }

  /** A strictly sorted sequence is determined by its set of elements. */
  lemma {:induction false} StrictlySortedUnique<T>(le: (T, T) -> bool, s: seq<T>, r: seq<T>)
    requires StrictlySorted(le, s) && StrictlySorted(le, r)
    requires forall x :: x in s <==> x in r
    ensures s == r
  {
    assert forall k :: 0 <= k < |s| ==> s[k] in s;
    assert forall k :: 0 <= k < |r| ==> r[k] in r;
    if s != [] && r != [] {
      SameHead(le, s, r);
      forall x ensures x in s[1..] <==> x in r[1..] {
        HeadIsLeast(le, s, x);
        HeadIsLeast(le, r, x);
      }
      StrictlySortedUnique(le, s[1..], r[1..]);
      assert s == [s[0]] + s[1..] && r == [r[0]] + r[1..];
    }
  }

  lemma {:induction false} SameHead<T>(le: (T, T) -> bool, s: seq<T>, r: seq<T>)
    requires StrictlySorted(le, s) && StrictlySorted(le, r) && s != [] && r != []
    requires s[0] in r && r[0] in s
    ensures s[0] == r[0]
  {
    HeadIsLeast(le, s, r[0]);
    var i :| 0 <= i < |r| && r[i] == s[0];
    if i > 0 { assert le(r[0], r[i]); }
  }

  // ----- lexicographic order

  predicate LexLe<T(==)>(le: (T, T) -> bool, a: seq<T>, b: seq<T>) {
    if a == [] then true
    else if b == [] then false
    else if a[0] == b[0] then LexLe(le, a[1..], b[1..])
    else le(a[0], b[0])
  }

  lemma {:induction false} LexTotal<T(!new)>(le: (T, T) -> bool, a: seq<T>, b: seq<T>)
    requires TotalOrder(le)
    ensures LexLe(le, a, b) || LexLe(le, b, a)
    ensures LexLe(le, a, b) && LexLe(le, b, a) ==> a == b
  {
    if a != [] && b != [] && a[0] == b[0] {
      LexTotal(le, a[1..], b[1..]);
      assert a == [a[0]] + a[1..] && b == [b[0]] + b[1..];
    }
  }

  lemma {:induction false} LexTransitive<T(!new)>(le: (T, T) -> bool, a: seq<T>, b: seq<T>, c: seq<T>)
    requires TotalOrder(le)
    requires LexLe(le, a, b) && LexLe(le, b, c)
    ensures LexLe(le, a, c)
  {
    if a != [] && b != [] && c != [] && a[0] == b[0] == c[0] {
      LexTransitive(le, a[1..], b[1..], c[1..]);
    }
  }

  predicate CharLe(a: char, b: char) { a <= b }

  /** Python's order on `str`: by code point, lexicographically. */
  predicate StrLe(a: string, b: string) { LexLe(CharLe, a, b) }

  /** Order of paths: lexicographic by parts, as `pathlib` compares them. */
  predicate PartsLe(a: seq<string>, b: seq<string>) { LexLe(StrLe, a, b) }

  /** Where two texts first differ, the character with the smaller code point decides; a text
      comes before its continuations. */
  lemma {:induction false} StrLeDecides(pre: string, a: char, b: char, x: string, y: string)
    requires a != b
    ensures StrLe(pre + ([a] + x), pre + ([b] + y)) <==> a as int < b as int
    ensures StrLe(pre, pre + y) && (y != "" ==> !StrLe(pre + y, pre))
  {
    if pre == "" {
      assert "" + ([a] + x) == [a] + x && "" + ([b] + y) == [b] + y && "" + y == y;
    } else {
      StrLeDecides(pre[1..], a, b, x, y);
      assert (pre + ([a] + x))[1..] == pre[1..] + ([a] + x) && (pre + ([b] + y))[1..] == pre[1..] + ([b] + y);
      assert (pre + y)[1..] == pre[1..] + y;
    }
  }

  lemma StrLeTotalOrder()
    ensures TotalOrder(StrLe)
  {
    forall a, b ensures (StrLe(a, b) || StrLe(b, a)) && (StrLe(a, b) && StrLe(b, a) ==> a == b) {
      LexTotal(CharLe, a, b);
    }
    forall a, b, c | StrLe(a, b) && StrLe(b, c) ensures StrLe(a, c) {
      LexTransitive(CharLe, a, b, c);
    }
  }

  lemma PartsLeTotalOrder()
    ensures TotalOrder(PartsLe)
  {
    StrLeTotalOrder();
    forall a, b ensures (PartsLe(a, b) || PartsLe(b, a)) && (PartsLe(a, b) && PartsLe(b, a) ==> a == b) {
      LexTotal(StrLe, a, b);
    }
    forall a, b, c | PartsLe(a, b) && PartsLe(b, c) ensures PartsLe(a, c) {
      LexTransitive(StrLe, a, b, c);
    }
  }
}
