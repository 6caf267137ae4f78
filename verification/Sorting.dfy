/** `toSorted` with a comparator, and the order of strings by `<`. */
module Sorting {

  ghost predicate TotalPreorder<T(!new)>(le: (T, T) -> bool) {
    && (forall x, y :: le(x, y) || le(y, x))
    && (forall x, y, z {:trigger le(x, y), le(y, z)} :: le(x, y) && le(y, z) ==> le(x, z))
  }

  ghost predicate Antisymmetric<T(!new)>(le: (T, T) -> bool) {
    forall x, y {:trigger le(x, y), le(y, x)} :: le(x, y) && le(y, x) ==> x == y
  }

  ghost predicate Sorted<T>(le: (T, T) -> bool, s: seq<T>) {
    forall i, j :: 0 <= i < j < |s| ==> le(s[i], s[j])
  }

  function Insert<T>(le: (T, T) -> bool, x: T, s: seq<T>): (r: seq<T>)
    ensures multiset(r) == multiset(s) + multiset{x}
  {
    if s == [] || le(x, s[0]) then
      [x] + s
    else
      assert s == [s[0]] + s[1..];
      [s[0]] + Insert(le, x, s[1..])
  }

  /** A stable sort: equal elements keep their order. */
  function SortBy<T>(le: (T, T) -> bool, s: seq<T>): (r: seq<T>)
    ensures multiset(r) == multiset(s)
  {
    if s == [] then []
    else
      assert s == [s[0]] + s[1..];
      Insert(le, s[0], SortBy(le, s[1..]))
  }

  /** The elements that satisfy `p`, in their order. */
  function Only<T>(s: seq<T>, p: T -> bool): seq<T> {
    if s == [] then [] else (if p(s[0]) then [s[0]] else []) + Only(s[1..], p)
  }

  lemma OnlyCons<T>(x: T, s: seq<T>, p: T -> bool)
    ensures Only([x] + s, p) == (if p(x) then [x] else []) + Only(s, p)
  {
    assert ([x] + s)[1..] == s;
  }

  lemma {:induction false} OnlySplit<T>(a: seq<T>, b: seq<T>, p: T -> bool)
    ensures Only(a + b, p) == Only(a, p) + Only(b, p)
  {
    if a == [] {
      assert a + b == b;
    } else {
      hide Only;
      OnlySplit(a[1..], b, p);
      OnlyCons(a[0], a[1..], p);
      OnlyCons(a[0], a[1..] + b, p);
      assert [a[0]] + a[1..] == a && [a[0]] + (a[1..] + b) == a + b;
    }
  }

  lemma {:induction false} OnlyAllOrNone<T>(s: seq<T>, p: T -> bool)
    ensures (forall x :: x in s ==> p(x)) ==> Only(s, p) == s
    ensures (forall x :: x in s ==> !p(x)) ==> Only(s, p) == []
  {
    if s == [] {
    } else {
      assert s == [s[0]] + s[1..];
      OnlyAllOrNone(s[1..], p);
    }
  }

  lemma {:induction false} InsertStable<T(!new)>(le: (T, T) -> bool, x: T, s: seq<T>, p: T -> bool)
    requires forall y, z :: p(y) && p(z) ==> le(y, z)
    ensures Only(Insert(le, x, s), p) == (if p(x) then [x] else []) + Only(s, p)
  {
    hide Only;
    if s == [] || le(x, s[0]) {
      OnlyCons(x, s, p);
    } else {
      InsertStable(le, x, s[1..], p);
      OnlyCons(s[0], Insert(le, x, s[1..]), p);
      OnlyCons(s[0], s[1..], p);
      assert [s[0]] + s[1..] == s;
    }
  }

  /** Among elements that the order does not tell apart, sorting changes nothing. */
  lemma {:induction false} SortByStable<T(!new)>(le: (T, T) -> bool, s: seq<T>, p: T -> bool)
    requires forall y, z :: p(y) && p(z) ==> le(y, z)
    ensures Only(SortBy(le, s), p) == Only(s, p)
  {
    if s == [] {
    } else {
      hide Only;
      SortByStable(le, s[1..], p);
      InsertStable(le, s[0], SortBy(le, s[1..]), p);
      OnlyCons(s[0], s[1..], p);
      assert [s[0]] + s[1..] == s;
    }
  }

  lemma MultisetMembers<T>(r: seq<T>, s: seq<T>)
    requires multiset(r) == multiset(s)
    ensures |r| == |s|
    ensures forall x :: x in r <==> x in s
  {
    assert |multiset(r)| == |multiset(s)|;
    forall x ensures x in r <==> x in s {
      assert x in r <==> x in multiset(r);
      assert x in s <==> x in multiset(s);
    }
  }

  lemma {:induction false} InsertSorted<T(!new)>(le: (T, T) -> bool, x: T, s: seq<T>)
    requires TotalPreorder(le) && Sorted(le, s)
    ensures Sorted(le, Insert(le, x, s))
  {
    if s == [] || le(x, s[0]) {
    } else {
      var rest := Insert(le, x, s[1..]);
      InsertSorted(le, x, s[1..]);
      forall j | 0 <= j < |rest| ensures le(s[0], rest[j]) {
        assert rest[j] in multiset(rest);
        assert rest[j] in multiset(s[1..]) || rest[j] == x;
        if rest[j] != x {
          assert rest[j] in s[1..];
        }
      }
    }
  }

  lemma {:induction false} SortBySorted<T(!new)>(le: (T, T) -> bool, s: seq<T>)
    requires TotalPreorder(le)
    ensures Sorted(le, SortBy(le, s))
  {
    if s == [] {
    } else {
      SortBySorted(le, s[1..]);
      InsertSorted(le, s[0], SortBy(le, s[1..]));
    }
  }

  lemma WithoutHead<T>(r: seq<T>)
    requires r != []
    ensures multiset(r[1..]) == multiset(r) - multiset{r[0]}
  {
    assert r == [r[0]] + r[1..];
  }

  lemma {:induction false} SortedUnique<T(!new)>(le: (T, T) -> bool, r: seq<T>, s: seq<T>)
    requires TotalPreorder(le) && Antisymmetric(le)
    requires Sorted(le, r) && Sorted(le, s) && multiset(r) == multiset(s)
    ensures r == s
  {
    MultisetMembers(r, s);
    if r == [] {
    } else {
      assert r[0] in s && s[0] in r;
      assert r[0] == s[0];
      WithoutHead(r);
      WithoutHead(s);
      SortedUnique(le, r[1..], s[1..]);
      assert r == [r[0]] + r[1..] && s == [s[0]] + s[1..];
    }
  }

  /** `a < b` on strings: the first differing code unit decides, and a proper prefix comes first. */
  predicate Less(a: string, b: string) {
    if b == "" then false
    else if a == "" then true
    else if a[0] != b[0] then a[0] < b[0]
    else Less(a[1..], b[1..])
  }

  predicate LessEq(a: string, b: string) {
    !Less(b, a)
  }

  lemma {:induction false} LessTrichotomy(a: string, b: string)
    ensures !(Less(a, b) && Less(b, a))
    ensures a == b <==> !Less(a, b) && !Less(b, a)
  {
    if a == "" || b == "" || a[0] != b[0] {
    } else {
      LessTrichotomy(a[1..], b[1..]);
      assert a == [a[0]] + a[1..] && b == [b[0]] + b[1..];
    }
  }

  /** The strings agree on their first `k` characters, and there `a` either ends or has the lesser character. */
  ghost predicate PrecedesAt(a: string, b: string, k: nat) {
    k <= |a| && k < |b| && a[..k] == b[..k] && (k < |a| ==> a[k] < b[k])
  }

  lemma {:induction false} LessIsLexicographic(a: string, b: string)
    ensures Less(a, b) <==> exists k :: PrecedesAt(a, b, k)
  {
    if a == [] || b == [] {
      if b != [] { assert PrecedesAt(a, b, 0); }
    } else {
      LessIsLexicographic(a[1..], b[1..]);
      if a[0] == b[0] && Less(a, b) {
        var k: nat :| PrecedesAt(a[1..], b[1..], k);
        assert a[..k + 1] == [a[0]] + a[1..][..k] && b[..k + 1] == [b[0]] + b[1..][..k];
        assert PrecedesAt(a, b, k + 1);
      } else if a[0] < b[0] {
        assert PrecedesAt(a, b, 0);
      }
      if k: nat :| PrecedesAt(a, b, k) {
        if k > 0 {
          assert a[..k][0] == b[..k][0];
          assert a[1..][..k - 1] == a[..k][1..] && b[1..][..k - 1] == b[..k][1..];
          assert PrecedesAt(a[1..], b[1..], k - 1);
        }
      }
    }
  }

  lemma {:induction false} LessTransitive(a: string, b: string, c: string)
    requires Less(a, b) && Less(b, c)
    ensures Less(a, c)
  {
    if a == "" || b == "" || c == "" || a[0] != b[0] || b[0] != c[0] {
    } else {
      LessTransitive(a[1..], b[1..], c[1..]);
    }
  }

  lemma LessEqTransitive(x: string, y: string, z: string)
    requires LessEq(x, y) && LessEq(y, z)
    ensures LessEq(x, z)
  {
    LessTrichotomy(x, y);
    LessTrichotomy(y, z);
    LessTrichotomy(x, z);
    if Less(x, y) && Less(y, z) {
      LessTransitive(x, y, z);
    }
  }

  lemma LessEqOrder()
    ensures TotalPreorder(LessEq) && Antisymmetric(LessEq)
  {
    forall x, y ensures LessEq(x, y) || LessEq(y, x) {
      LessTrichotomy(x, y);
    }
    forall x, y {:trigger LessEq(x, y), LessEq(y, x)} | LessEq(x, y) && LessEq(y, x) ensures x == y {
      LessTrichotomy(x, y);
    }
    forall x, y, z {:trigger LessEq(x, y), LessEq(y, z)} | LessEq(x, y) && LessEq(y, z) ensures LessEq(x, z) {
      LessEqTransitive(x, y, z);
    }
  }
}
