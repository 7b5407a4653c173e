/** Sequence utilities standing in for the DataFrame operations the resolver
    uses: first match of a boolean mask (`df[mask].iloc[0]`) and the
    first-occurrence order in which a dictionary keeps its keys. */
module Seqs {
  import opened Wrappers

  /** Position of the first element satisfying `p`, if any. */
  function FirstMatch<T>(s: seq<T>, p: T -> bool): (r: Option<nat>)
    ensures r.Some? ==> r.value < |s| && p(s[r.value])
    ensures r.Some? ==> forall j :: 0 <= j < r.value ==> !p(s[j])
    ensures r.None? <==> forall j :: 0 <= j < |s| ==> !p(s[j])
  {
    if |s| == 0 then None
    else if p(s[0]) then Some(0)
    else match FirstMatch(s[1..], p)
      case None => None
      case Some(i) => Some(i + 1)
  }

  /** `[f(x) for x in s]` where `f` may raise: the results in order, or the
      error of the first element on which `f` fails. */
  function TryMap<A, B, E>(f: A -> Result<B, E>, s: seq<A>): (r: Result<seq<B>, E>)
    ensures r.Success? <==> forall i :: 0 <= i < |s| ==> f(s[i]).Success?
    ensures r.Success? ==> |r.value| == |s| && forall i :: 0 <= i < |s| ==> f(s[i]) == Success(r.value[i])
    ensures r.Failure? ==>
      exists i :: (0 <= i < |s| && f(s[i]) == Failure(r.error)
        && forall j :: 0 <= j < i ==> f(s[j]).Success?)
  {
    if |s| == 0 then Success([])
    else
      var head := f(s[0]);
      var tail := TryMap(f, s[1..]);
      assert forall i :: 1 <= i < |s| ==> s[i] == s[1..][i - 1];
      if head.Failure? then Failure(head.error)
      else if tail.Failure? then
        assert exists i :: (0 <= i < |s| && f(s[i]) == Failure(tail.error)
          && forall j :: 0 <= j < i ==> f(s[j]).Success?) by {
          var k :| 0 <= k < |s| - 1 && f(s[1..][k]) == Failure(tail.error)
            && forall j :: 0 <= j < k ==> f(s[1..][j]).Success?;
          assert f(s[k + 1]) == Failure(tail.error);
        }
        Failure(tail.error)
      else
        Success([head.value] + tail.value)
  }

  function Elems<T>(s: seq<T>): set<T>
  {
    set x | x in s
  }

  ghost predicate Distinct<T>(s: seq<T>)
  {
    forall i, j :: 0 <= i < j < |s| ==> s[i] != s[j]
  }

  /** Index of the first occurrence of `x` in `s`. */
  function IndexOf<T(==)>(s: seq<T>, x: T): (i: nat)
    requires x in s
    ensures i < |s| && s[i] == x && x !in s[..i]
  {
    if s[0] == x then 0 else 1 + IndexOf(s[1..], x)
  }

  /** Each element of `s` once, at the place it first occurs. */
  function Dedup<T(==)>(s: seq<T>): (r: seq<T>)
    ensures Distinct(r)
    ensures forall i :: 0 <= i < |r| ==> r[i] in s
    ensures forall i :: 0 <= i < |s| ==> s[i] in r
  {
    if |s| == 0 then []
    else
      var d := Dedup(s[..|s| - 1]);
      assert s == s[..|s| - 1] + [s[|s| - 1]];
      if s[|s| - 1] in d then d else d + [s[|s| - 1]]
  }

  lemma DedupLast<T>(s: seq<T>)
    requires |s| > 0
    ensures var d := Dedup(s[..|s| - 1]);
      Dedup(s) == if s[|s| - 1] in d then d else d + [s[|s| - 1]]
  {
  }

  function Map<A, B>(f: A -> B, s: seq<A>): (r: seq<B>)
    ensures |r| == |s| && forall i :: 0 <= i < |s| ==> r[i] == f(s[i])
  {
    seq(|s|, i requires 0 <= i < |s| => f(s[i]))
  }

  lemma IndexOfExtend<T>(s: seq<T>, x: T, y: T)
    requires y in s
    ensures IndexOf(s + [x], y) == IndexOf(s, y)
  {
    var i := IndexOf(s, y);
    var t := s + [x];
    assert t[..i] == s[..i];
    IndexOfUnique(t, y, i);
  }

  lemma IndexOfUnique<T>(s: seq<T>, x: T, i: nat)
    requires i < |s| && s[i] == x && x !in s[..i]
    ensures IndexOf(s, x) == i
  {
    var k := IndexOf(s, x);
    NotInPrefix(s, x, i);
    NotInPrefix(s, x, k);
  }

  lemma NotInPrefix<T>(s: seq<T>, x: T, i: nat)
    requires i <= |s| && x !in s[..i]
    ensures forall m :: 0 <= m < i ==> s[m] != x
  {
    forall m | 0 <= m < i ensures s[m] != x {
      assert s[..i][m] == s[m];
    }
  }

  /** `Dedup` lists elements in the order of their first occurrences. */
  lemma {:induction false} DedupOrder<T>(s: seq<T>)
    ensures forall i, j :: 0 <= i < j < |Dedup(s)| ==>
      IndexOf(s, Dedup(s)[i]) < IndexOf(s, Dedup(s)[j])
  {
    if |s| > 0 {
      var p := s[..|s| - 1];
      var x := s[|s| - 1];
      var d := Dedup(p);
      assert s == p + [x];
      DedupOrder(p);
      forall y | y in d ensures IndexOf(s, y) == IndexOf(p, y) {
        IndexOfExtend(p, x, y);
      }
      if x !in d {
        assert s[..|p|] == p;
        IndexOfUnique(s, x, |p|);
        assert Dedup(s) == d + [x];
      }
    }
  }

  lemma {:induction false} DistinctSize<T>(s: seq<T>)
    requires Distinct(s)
    ensures |Elems(s)| == |s|
  {
    if |s| > 0 {
      var p := s[..|s| - 1];
      DistinctSize(p);
      assert s == p + [s[|s| - 1]];
      assert Elems(s) == Elems(p) + {s[|s| - 1]};
      assert s[|s| - 1] !in Elems(p);
    }
  }

  /** `Dedup` keeps one entry per distinct element. */
  lemma DedupSize<T>(s: seq<T>)
    ensures |Dedup(s)| == |Elems(s)|
  {
    DistinctSize(Dedup(s));
    assert Elems(Dedup(s)) == Elems(s);
  }

  /** Renaming elements injectively commutes with `Dedup`. */
  lemma {:induction false} DedupMap<A, B>(f: A -> B, s: seq<A>)
    requires forall a, a' :: f(a) == f(a') ==> a == a'
    ensures Dedup(Map(f, s)) == Map(f, Dedup(s))
  {
    if |s| > 0 {
      var p := s[..|s| - 1];
      var x := s[|s| - 1];
      DedupMap(f, p);
      var fs := Map(f, s);
      assert fs[..|fs| - 1] == Map(f, p);
      var d := Dedup(p);
      assert f(x) in Map(f, d) <==> x in d;
      if x !in d {
        assert Map(f, d + [x]) == Map(f, d) + [f(x)];
      }
    }
  }
}
