/** Primary-key mechanics of the record store (IndexedDB through Dexie), generic over
    the record type: a table is a sequence in ascending primary-key order, and `key`
    reads a record's primary key. */
module Keys {
  import opened Wrappers
  import Seqs

  /** Keys strictly increase along the table: primary-key order with no key twice. */
  predicate Increasing<T>(s: seq<T>, key: T -> int)
  {
    forall i, j :: 0 <= i < j < |s| ==> key(s[i]) < key(s[j])
  }

  /** Every key is below the table's key generator. */
  predicate AllBelow<T>(s: seq<T>, key: T -> int, bound: int)
  {
    forall i :: 0 <= i < |s| ==> key(s[i]) < bound
  }

  /** No two records share a key. */
  predicate Distinct<T>(s: seq<T>, key: T -> int)
  {
    forall i, j :: 0 <= i < j < |s| ==> key(s[i]) != key(s[j])
  }

  /** `table.get(k)`. */
  function Find<T>(s: seq<T>, key: T -> int, k: int): (r: Option<T>)
    ensures r.Some? ==> r.value in s && key(r.value) == k
    ensures r.None? <==> forall i :: 0 <= i < |s| ==> key(s[i]) != k
  {
    if s == [] then None else if key(s[0]) == k then Some(s[0]) else Find(s[1..], key, k)
  }

  /** `table.update(key(x), ...)` once the changes are merged into `x`: the record with
      that key is replaced, every other record stays where it is. */
  function Replace<T>(s: seq<T>, key: T -> int, x: T): (r: seq<T>)
    ensures |r| == |s|
    ensures forall i :: 0 <= i < |s| ==> r[i] == (if key(s[i]) == key(x) then x else s[i])
  {
    if s == [] then [] else [if key(s[0]) == key(x) then x else s[0]] + Replace(s[1..], key, x)
  }

  lemma ReplaceKeepsOrder<T>(s: seq<T>, key: T -> int, x: T, bound: int)
    requires Increasing(s, key) && AllBelow(s, key, bound)
    ensures Increasing(Replace(s, key, x), key) && AllBelow(Replace(s, key, x), key, bound)
  {
  }

  /** Deleting every record that matches `p` keeps the order and the generator bound. */
  lemma {:induction false} FilterKeepsOrder<T>(s: seq<T>, key: T -> int, p: T -> bool, bound: int)
    requires Increasing(s, key) && AllBelow(s, key, bound)
    ensures Increasing(Seqs.Filter(s, p), key) && AllBelow(Seqs.Filter(s, p), key, bound)
  {
    if s != [] {
      FilterKeepsOrder(s[1..], key, p, bound);
      var rest := Seqs.Filter(s[1..], p);
      assert Seqs.Filter(s, p) == (if p(s[0]) then [s[0]] else []) + rest;
      assert forall x :: x in s[1..] ==> key(s[0]) < key(x);
      assert forall i :: 0 <= i < |rest| ==> rest[i] in s[1..];
    }
  }

  /** `table.add(x)` with `x` carrying the generator's current value. */
  lemma AppendKeepsOrder<T>(s: seq<T>, key: T -> int, x: T, bound: int)
    requires Increasing(s, key) && AllBelow(s, key, bound) && key(x) == bound
    ensures Increasing(s + [x], key) && AllBelow(s + [x], key, bound + 1)
  {
  }

  /** Reading a key-ordered table backwards gives strictly decreasing keys. */
  lemma ReverseDecreasing<T>(s: seq<T>, key: T -> int)
    requires Increasing(s, key)
    ensures forall i, j :: 0 <= i < j < |Seqs.Reverse(s)| ==> key(Seqs.Reverse(s)[i]) > key(Seqs.Reverse(s)[j])
  {
    var r := Seqs.Reverse(s);
    forall i, j | 0 <= i < j < |r| ensures key(r[i]) > key(r[j]) {
      assert r[i] == s[|s| - 1 - i] && r[j] == s[|s| - 1 - j];
    }
  }

  /** `table.put(x)`: replaces the record with key `key(x)`, or inserts `x` at its place
      in key order. */
  function Put<T>(s: seq<T>, key: T -> int, x: T): (r: seq<T>)
    requires Increasing(s, key)
    ensures Increasing(r, key)
    ensures x in r
    ensures forall i :: 0 <= i < |s| && key(s[i]) != key(x) ==> s[i] in r
    ensures forall i :: 0 <= i < |r| ==> r[i] == x || (r[i] in s && key(r[i]) != key(x))
  {
    if s == [] then [x]
    else if key(s[0]) == key(x) then [x] + s[1..]
    else if key(x) < key(s[0]) then [x] + s
    else [s[0]] + Put(s[1..], key, x)
  }

  /** Putting the same record twice leaves the table as putting it once. */
  lemma {:induction false} PutIdempotent<T>(s: seq<T>, key: T -> int, x: T)
    requires Increasing(s, key)
    ensures Put(Put(s, key, x), key, x) == Put(s, key, x)
  {
    if s != [] && key(s[0]) != key(x) && key(x) > key(s[0]) {
      PutIdempotent(s[1..], key, x);
      assert Put(s, key, x)[1..] == Put(s[1..], key, x);
    }
  }

  /** Putting a record that is already stored changes nothing. */
  lemma {:induction false} PutPresent<T>(s: seq<T>, key: T -> int, x: T)
    requires Increasing(s, key) && x in s
    ensures Put(s, key, x) == s
  {
    var t := s[1..];
    if s[0] != x {
      var j :| 0 < j < |s| && s[j] == x;
      assert key(s[0]) < key(x);
      assert t[j - 1] == x;
      assert Increasing(t, key);
      PutPresent(t, key, x);
    }
    assert s == [s[0]] + t;
  }

  /** After `put(x)`, `get(key(x))` returns `x`. */
  lemma PutThenFind<T>(s: seq<T>, key: T -> int, x: T)
    requires Increasing(s, key)
    ensures Find(Put(s, key, x), key, key(x)) == Some(x)
  {
    var r := Put(s, key, x);
    FindInIncreasing(r, key, x);
  }

  /** In a table without repeated keys, `get` finds any record by its key. */
  lemma {:induction false} FindInIncreasing<T>(s: seq<T>, key: T -> int, x: T)
    requires Increasing(s, key) && x in s
    ensures Find(s, key, key(x)) == Some(x)
  {
    if s[0] != x {
      assert x in s[1..];
      var j :| 0 <= j < |s[1..]| && s[1..][j] == x;
      assert key(s[0]) < key(s[j + 1]);
      FindInIncreasing(s[1..], key, x);
    }
  }

  /** Adds `x` to a cleared table in key order, failing on a key already present. */
  function InsertUnique<T>(x: T, s: seq<T>, key: T -> int): (r: Option<seq<T>>)
    requires Increasing(s, key)
    ensures r.None? <==> exists i :: 0 <= i < |s| && key(s[i]) == key(x)
    ensures r.Some? ==> Increasing(r.value, key) && multiset(r.value) == multiset(s) + multiset{x}
  {
    if s == [] then Some([x])
    else if key(x) == key(s[0]) then None
    else if key(x) < key(s[0]) then
      assert [x] + s == [x] + s;
      Some([x] + s)
    else
      match InsertUnique(x, s[1..], key)
      case None => None
      case Some(t) =>
        InsertUniqueHead(x, s, t, key);
        Some([s[0]] + t)
  }

  lemma InsertUniqueHead<T>(x: T, s: seq<T>, t: seq<T>, key: T -> int)
    requires Increasing(s, key) && |s| > 0 && key(x) > key(s[0])
    requires Increasing(t, key) && multiset(t) == multiset(s[1..]) + multiset{x}
    ensures Increasing([s[0]] + t, key)
    ensures multiset([s[0]] + t) == multiset(s) + multiset{x}
  {
    forall i | 0 <= i < |t| ensures key(s[0]) < key(t[i]) {
      assert t[i] in multiset(t);
      if t[i] != x {
        assert t[i] in multiset(s[1..]);
        var j :| 0 <= j < |s[1..]| && s[1..][j] == t[i];
        assert s[j + 1] == t[i];
      }
    }
    assert s == [s[0]] + s[1..];
  }

  /** `bulkAdd(records)` into a cleared table: the records in key order, or failure
      (Dexie's constraint error) when two of them share a key. */
  function SortUnique<T>(s: seq<T>, key: T -> int): (r: Option<seq<T>>)
    ensures r.Some? <==> Distinct(s, key)
    ensures r.Some? ==> Increasing(r.value, key) && multiset(r.value) == multiset(s)
  {
    if s == [] then Some([])
    else
      match SortUnique(s[1..], key)
      case None =>
        assert !Distinct(s, key) by {
          var i, j :| 0 <= i < j < |s[1..]| && key(s[1..][i]) == key(s[1..][j]);
          assert key(s[i + 1]) == key(s[j + 1]);
        }
        None
      case Some(t) =>
        SortUniqueStep(s, t, key);
        assert s == [s[0]] + s[1..];
        InsertUnique(s[0], t, key)
  }

  lemma SortUniqueStep<T>(s: seq<T>, t: seq<T>, key: T -> int)
    requires |s| > 0 && Distinct(s[1..], key)
    requires Increasing(t, key) && multiset(t) == multiset(s[1..])
    ensures Distinct(s, key) <==> forall i :: 0 <= i < |t| ==> key(t[i]) != key(s[0])
  {
    if !Distinct(s, key) {
      var i, j :| 0 <= i < j < |s| && key(s[i]) == key(s[j]);
      if i == 0 {
        assert s[j] in multiset(s[1..]) by { assert s[1..][j - 1] == s[j]; }
        assert s[j] in multiset(t);
        var k :| 0 <= k < |t| && t[k] == s[j];
      }
    }
    if exists k :: 0 <= k < |t| && key(t[k]) == key(s[0]) {
      var k :| 0 <= k < |t| && key(t[k]) == key(s[0]);
      assert t[k] in multiset(s[1..]);
      var j :| 0 <= j < |s[1..]| && s[1..][j] == t[k];
      assert key(s[0]) == key(s[j + 1]);
    }
  }

  /** The key generator after records with explicit keys are added: IndexedDB raises it
      past every numeric key it stores and never lowers it. */
  function RaiseGenerator<T>(next: int, s: seq<T>, key: T -> int): (r: int)
    ensures r >= next
    ensures AllBelow(s, key, r)
    decreases |s|
  {
    if s == [] then next
    else
      var n := if key(s[0]) + 1 > next then key(s[0]) + 1 else next;
      RaiseGenerator(n, s[1..], key)
  }
}
