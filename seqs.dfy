/** Sequence operations that stand for the JavaScript array methods the pages use
    (`filter`, `reverse`, and "the last element that matches"). */
module Seqs {
  import opened Wrappers

  /** `s.filter(p)`: the elements of `s` that satisfy `p`. The definition keeps them in
      their original order; the contract states only which elements are kept, and
      FilterAppend and FilterCount state how it splits over `+` and how long it is. */
  function Filter<T>(s: seq<T>, p: T -> bool): (r: seq<T>)
    ensures |r| <= |s|
    ensures forall i :: 0 <= i < |r| ==> r[i] in s && p(r[i])
    ensures forall i :: 0 <= i < |s| && p(s[i]) ==> s[i] in r
  {
    if s == [] then [] else (if p(s[0]) then [s[0]] else []) + Filter(s[1..], p)
  }

  lemma {:induction false} FilterAll<T>(s: seq<T>, p: T -> bool)
    requires forall i :: 0 <= i < |s| ==> p(s[i])
    ensures Filter(s, p) == s
  {
    if s != [] {
      FilterAll(s[1..], p);
    }
  }

  lemma {:induction false} FilterAppend<T>(a: seq<T>, b: seq<T>, p: T -> bool)
    ensures Filter(a + b, p) == Filter(a, p) + Filter(b, p)
  {
    if a == [] {
      assert a + b == b;
    } else {
      assert (a + b)[1..] == a[1..] + b;
      FilterAppend(a[1..], b, p);
    }
  }

  /** The positions of `s` whose element passes `p`. */
  function Positions<T>(s: seq<T>, p: T -> bool): set<int>
  {
    set i | 0 <= i < |s| && p(s[i])
  }

  /** The filtered list is as long as the set of positions whose element passes. */
  lemma {:induction false} FilterCount<T>(s: seq<T>, p: T -> bool)
    ensures |Filter(s, p)| == |Positions(s, p)|
  {
    if s != [] {
      var n := |s| - 1;
      var init := s[..n];
      assert s == init + [s[n]];
      FilterAppend(init, [s[n]], p);
      assert Filter([s[n]], p) == if p(s[n]) then [s[n]] else [];
      FilterCount(init, p);
      var before := Positions(init, p);
      var extra := if p(s[n]) then {n} else {};
      forall i ensures i in Positions(s, p) <==> i in before + extra {
        if 0 <= i < n {
          assert s[i] == init[i];
        }
      }
      assert Positions(s, p) == before + extra;
      assert n !in before;
    }
  }

  /** `s.slice().reverse()`. */
  function Reverse<T>(s: seq<T>): (r: seq<T>)
    ensures |r| == |s|
    ensures forall i :: 0 <= i < |s| ==> r[i] == s[|s| - 1 - i]
  {
    if s == [] then [] else Reverse(s[1..]) + [s[0]]
  }

  /** The index of the last element of `s` that satisfies `p`, or -1 when there is none. */
  function LastIndex<T>(s: seq<T>, p: T -> bool): (k: int)
    ensures -1 <= k < |s|
    ensures k >= 0 ==> p(s[k])
    ensures forall j :: k < j < |s| ==> !p(s[j])
  {
    if s == [] then -1
    else if p(s[|s| - 1]) then |s| - 1
    else LastIndex(s[..|s| - 1], p)
  }

  /** The last element of `s` that satisfies `p`: what a forEach loop that keeps
      overwriting one slot leaves in that slot. */
  function LastWhere<T>(s: seq<T>, p: T -> bool): (r: Option<T>)
    ensures r.Some? <==> exists i :: 0 <= i < |s| && p(s[i])
    ensures r.Some? ==> p(r.value) && r.value in s
  {
    var k := LastIndex(s, p);
    if k < 0 then None else Some(s[k])
  }

  /** Appending one element: it wins when it matches, otherwise the old answer stands. */
  lemma LastWhereSnoc<T>(s: seq<T>, x: T, p: T -> bool)
    ensures LastWhere(s + [x], p) == if p(x) then Some(x) else LastWhere(s, p)
  {
    assert (s + [x])[..|s|] == s;
  }

  /** The distinct values of `f` over `s`. */
  function Image<T, U>(s: seq<T>, f: T -> U): (r: set<U>)
    ensures forall i :: 0 <= i < |s| ==> f(s[i]) in r
    ensures forall y :: y in r ==> exists i :: 0 <= i < |s| && f(s[i]) == y
  {
    set i | 0 <= i < |s| :: f(s[i])
  }

  /** Mapping a sequence yields no more distinct values than it has positions. */
  lemma {:induction false} ImageAtMostLength<T, U>(s: seq<T>, f: T -> U)
    ensures |Image(s, f)| <= |s|
  {
    if s != [] {
      var init := s[..|s| - 1];
      ImageAtMostLength(init, f);
      assert Image(s, f) == Image(init, f) + {f(s[|s| - 1])} by {
        assert forall i :: 0 <= i < |init| ==> init[i] == s[i];
      }
    }
  }

  lemma SubsetCard<T>(a: set<T>, b: set<T>)
    requires a <= b
    ensures |a| <= |b|
  {
    assert b == a + (b - a);
    assert a * (b - a) == {};
  }

  /** A one-to-one map from `a` into `b` shows `a` is no larger than `b`. */
  lemma {:induction false} InjectionCard<A, B>(a: set<A>, b: set<B>, f: A -> B)
    requires forall x :: x in a ==> f(x) in b
    requires forall x, y :: x in a && y in a && f(x) == f(y) ==> x == y
    ensures |a| <= |b|
  {
    if a != {} {
      var x :| x in a;
      InjectionCard(a - {x}, b - {f(x)}, f);
    }
  }
}
