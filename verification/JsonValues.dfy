/** JSON values; a schema is one of them. */
module JsonValues {
  import opened Basics
  import opened Sorting

  datatype Json =
    | Null
    | Bool(b: bool)
    | Num(n: real)
    | Str(s: string)
    | Arr(items: seq<Json>)
    | Obj(members: map<string, Json>)

  /** `node[key]`, `undefined` when the node has no such key. */
  function At(node: map<string, Json>, key: string): Option<Json> {
    if key in node then Some(node[key]) else None
  }

  function AsArray(j: Option<Json>): Option<seq<Json>> {
    if j.Some? && j.value.Arr? then Some(j.value.items) else None
  }

  function AsObject(j: Option<Json>): Option<map<string, Json>> {
    if j.Some? && j.value.Obj? then Some(j.value.members) else None
  }

  predicate IsLeast(k: string, s: set<string>) {
    k in s && forall j :: j in s ==> LessEq(k, j)
  }

  lemma {:induction false} LeastKeyExists(s: set<string>)
    requires s != {}
    ensures exists k :: IsLeast(k, s)
  {
    hide LessEq;
    var x :| x in s;
    LessEqReflexive(x);
    var rest := s - {x};
    if rest == {} {
      assert s == {x};
      assert IsLeast(x, s);
    } else {
      LeastKeyExists(rest);
      var m :| IsLeast(m, rest);
      LessEqTotal(x, m);
      var k := if LessEq(x, m) then x else m;
      forall j | j in s ensures LessEq(k, j) {
        if j != x && k == x {
          LessEqTransitive(x, m, j);
        }
      }
      assert IsLeast(k, s);
    }
  }

  lemma LessEqReflexive(x: string)
    ensures LessEq(x, x)
  {
    LessTrichotomy(x, x);
  }

  lemma LessEqTotal(x: string, y: string)
    ensures LessEq(x, y) || LessEq(y, x)
  {
    LessTrichotomy(x, y);
  }

  lemma LeastIsUnique(s: set<string>)
    ensures forall k, k' :: IsLeast(k, s) && IsLeast(k', s) ==> k == k'
  {
    forall k, k' | IsLeast(k, s) && IsLeast(k', s) ensures k == k' {
      LessTrichotomy(k, k');
    }
  }

  lemma LeastBeforeRest(k: string, s: set<string>)
    requires IsLeast(k, s)
    ensures forall j :: j in s - {k} ==> Less(k, j)
  {
    forall j | j in s - {k} ensures Less(k, j) {
      LessTrichotomy(k, j);
    }
  }

  /** The keys in the order `toSorted(codepointCompare)` gives. */
  function SortedKeys(s: set<string>): (r: seq<string>)
    ensures |r| == |s|
    ensures forall k :: k in r <==> k in s
    ensures forall i, j :: 0 <= i < j < |r| ==> Less(r[i], r[j])
  {
    if s == {} then []
    else
      LeastKeyExists(s); LeastIsUnique(s);
      var k :| IsLeast(k, s);
      var rest := SortedKeys(s - {k});
      assert forall i :: 0 <= i < |rest| ==> Less(k, rest[i]) by {
        LeastBeforeRest(k, s);
        assert forall i :: 0 <= i < |rest| ==> rest[i] in rest;
      }
      [k] + rest
  }
}
