/**
 * The array and query primitives the JavaScript code is built from:
 * `find`, `filter`, counting the rows a query returns, and ordering rows
 * by a key, descending.
 */
module Seqs {
  import opened Wrappers

  /** Position of the first element satisfying `p` (`findIndex`), if any. */
  function FirstIndex<T>(s: seq<T>, p: T -> bool): (r: Option<nat>)
    ensures r.Some? ==> r.value < |s| && p(s[r.value])
    ensures r.Some? ==> forall j :: 0 <= j < r.value ==> !p(s[j])
    ensures r.None? <==> forall j :: 0 <= j < |s| ==> !p(s[j])
  {
    if s == [] then None
    else if p(s[0]) then Some(0)
    else match FirstIndex(s[1..], p)
      case None => None
      case Some(i) => Some(i + 1)
  }

  /** Tests that agree on every element find the same position. */
  lemma FirstIndexSame<T>(s: seq<T>, p: T -> bool, q: T -> bool)
    requires forall x :: p(x) == q(x)
    ensures FirstIndex(s, p) == FirstIndex(s, q)
  {
    match FirstIndex(s, p)
    case None =>
    case Some(i) =>
      var k := FirstIndex(s, q).value;
      assert !(k < i) && !(i < k);
  }

  /** `s.find(p)`: the first element satisfying `p`, if any. */
  function Find<T>(s: seq<T>, p: T -> bool): Option<T> {
    match FirstIndex(s, p)
    case None => None
    case Some(i) => Some(s[i])
  }

  /** `s.filter(p)`: the elements satisfying `p`, in their original order. */
  function Filter<T>(s: seq<T>, p: T -> bool): (r: seq<T>)
    ensures |r| <= |s|
    ensures forall x :: x in r ==> x in s && p(x)
    ensures forall x :: x in s && p(x) ==> x in r
    ensures multiset(r) <= multiset(s)
  {
    if s == [] then []
    else
      assert s == [s[0]] + s[1..];
      (if p(s[0]) then [s[0]] else []) + Filter(s[1..], p)
  }

  /** The number of elements satisfying `p`: the length of a filtered query result. */
  function Count<T>(s: seq<T>, p: T -> bool): nat {
    |Filter(s, p)|
  }

  function Indicator(b: bool): nat {
    if b then 1 else 0
  }

  /** Filtering distributes over concatenation. */
  lemma {:induction false} FilterAppend<T>(s: seq<T>, t: seq<T>, p: T -> bool)
    ensures Filter(s + t, p) == Filter(s, p) + Filter(t, p)
  {
    if s == [] {
      assert s + t == t;
    } else {
      assert (s + t)[1..] == s[1..] + t;
      FilterAppend(s[1..], t, p);
    }
  }

  /** Appending one element adds one to the count exactly when it satisfies `p`. */
  lemma CountAppend<T>(s: seq<T>, x: T, p: T -> bool)
    ensures Count(s + [x], p) == Count(s, p) + Indicator(p(x))
  {
    FilterAppend(s, [x], p);
    assert [x][1..] == [];
  }

  /** Replacing one element changes the count by what the old and new element contribute. */
  lemma CountUpdate<T>(s: seq<T>, k: nat, x: T, p: T -> bool)
    requires k < |s|
    ensures Count(s[k := x], p) + Indicator(p(s[k])) == Count(s, p) + Indicator(p(x))
  {
    var pre, post := s[..k], s[k + 1..];
    assert s == pre + [s[k]] + post;
    assert s[k := x] == pre + [x] + post;
    FilterAppend(pre + [s[k]], post, p);
    FilterAppend(pre + [x], post, p);
    FilterAppend(pre, [s[k]], p);
    FilterAppend(pre, [x], p);
    assert [x][1..] == [] && [s[k]][1..] == [];
  }

  /** Nothing is counted exactly when no element satisfies `p`. */
  lemma CountZero<T>(s: seq<T>, p: T -> bool)
    ensures Count(s, p) == 0 <==> forall i :: 0 <= i < |s| ==> !p(s[i])
  {
    var r := Filter(s, p);
    if r != [] {
      assert r[0] in r;
    } else {
      forall i | 0 <= i < |s| ensures !p(s[i]) {
        assert s[i] in s;
      }
    }
  }

  /** When exactly one element satisfies `p`, filtering yields just that element. */
  lemma {:induction false} FilterSingle<T>(s: seq<T>, k: nat, p: T -> bool)
    requires k < |s| && p(s[k])
    requires forall j :: 0 <= j < |s| && j != k ==> !p(s[j])
    ensures Filter(s, p) == [s[k]]
  {
    var tail := s[1..];
    if k == 0 {
      assert forall j :: 0 <= j < |tail| ==> !p(tail[j]) by {
        assert forall j :: 0 <= j < |tail| ==> tail[j] == s[j + 1];
      }
      CountZero(tail, p);
    } else {
      FilterSingle(tail, k - 1, p);
    }
  }

  /** The positions of `s` whose element satisfies `p`. */
  ghost function Positions<T>(s: seq<T>, p: T -> bool): set<nat> {
    set i: nat | i < |s| && p(s[i])
  }

  /** Appending one element adds its own position when it satisfies `p`. */
  lemma PositionsAppend<T>(s: seq<T>, x: T, p: T -> bool)
    ensures |Positions(s + [x], p)| == |Positions(s, p)| + Indicator(p(x))
  {
    var before, now := Positions(s, p), Positions(s + [x], p);
    forall i: nat | i < |s| ensures (i in now <==> i in before) {
      assert (s + [x])[i] == s[i];
    }
    assert (s + [x])[|s|] == x;
    if p(x) {
      assert now == before + {|s|};
    } else {
      assert now == before;
    }
  }

  /** The count is the number of positions whose element satisfies `p`. */
  lemma {:induction false} CountPositions<T>(s: seq<T>, p: T -> bool)
    ensures Count(s, p) == |Positions(s, p)|
  {
    if s != [] {
      var init, last := s[..|s| - 1], s[|s| - 1];
      assert s == init + [last];
      CountPositions(init, p);
      CountAppend(init, last, p);
      PositionsAppend(init, last, p);
    }
  }

  /** Keys never increase from left to right. */
  ghost predicate SortedDesc<T>(s: seq<T>, key: T -> int) {
    forall i, j :: 0 <= i < j < |s| ==> key(s[i]) >= key(s[j])
  }

  /** Inserts `x` into a descending sequence before the first smaller key. */
  function InsertDesc<T>(x: T, s: seq<T>, key: T -> int): (r: seq<T>)
    requires SortedDesc(s, key)
    ensures SortedDesc(r, key)
    ensures multiset(r) == multiset(s) + multiset{x}
  {
    if s == [] then [x]
    else if key(x) >= key(s[0]) then [x] + s
    else
      var rest := InsertDesc(x, s[1..], key);
      assert multiset(s) == multiset{s[0]} + multiset(s[1..]) by {
        assert s == [s[0]] + s[1..];
      }
      assert forall i :: 0 <= i < |rest| ==> key(s[0]) >= key(rest[i]) by {
        forall i | 0 <= i < |rest| ensures key(s[0]) >= key(rest[i]) {
          assert rest[i] in multiset(rest);
          if rest[i] != x {
            assert rest[i] in multiset(s[1..]);
            var j :| 0 <= j < |s[1..]| && s[1..][j] == rest[i];
            assert s[j + 1] == rest[i];
          }
        }
      }
      [s[0]] + rest
  }

  /** The rows ordered by `key`, descending (`order(key, {ascending: false})`). */
  function SortDesc<T>(s: seq<T>, key: T -> int): (r: seq<T>)
    ensures SortedDesc(r, key)
    ensures multiset(r) == multiset(s)
  {
    if s == [] then []
    else
      assert s == [s[0]] + s[1..];
      InsertDesc(s[0], SortDesc(s[1..], key), key)
  }
}
