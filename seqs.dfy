/** Order-preserving selection over sequences, as JavaScript's `Array.prototype.filter` performs it. */
module Seqs {

  /** `a` can be obtained from `b` by deleting elements, without reordering the rest. */
  predicate IsSubsequence<T(==,!new)>(a: seq<T>, b: seq<T>)
    decreases |b|
  {
    a == [] || (b != [] && ((a[0] == b[0] && IsSubsequence(a[1..], b[1..])) || IsSubsequence(a, b[1..])))
  }

  /** `s.filter(keep)`: the elements satisfying `keep`, in their original order. */
  function Select<T(==,!new)>(s: seq<T>, keep: T -> bool): (r: seq<T>)
    ensures |r| <= |s|
    ensures IsSubsequence(r, s)
    ensures forall x :: x in r <==> x in s && keep(x)
    ensures (forall i :: 0 <= i < |s| ==> keep(s[i])) ==> r == s
  {
    if s == [] then []
    else if keep(s[0]) then
      var rest := Select(s[1..], keep);
      assert ([s[0]] + rest)[1..] == rest;
      [s[0]] + rest
    else
      Select(s[1..], keep)
  }

  /** Filtering twice is filtering once by both conditions. */
  lemma {:induction false} SelectSelect<T(!new)>(s: seq<T>, f: T -> bool, g: T -> bool, both: T -> bool)
    requires forall x :: both(x) == (f(x) && g(x))
    ensures Select(Select(s, f), g) == Select(s, both)
  {
    if s != [] {
      SelectSelect(s[1..], f, g, both);
      if f(s[0]) {
        assert ([s[0]] + Select(s[1..], f))[1..] == Select(s[1..], f);
      }
    }
  }

  /** Selection looks at the first element, then at the rest. */
  lemma SelectCons<T(!new)>(x: T, s: seq<T>, keep: T -> bool)
    ensures Select([x] + s, keep) == (if keep(x) then [x] else []) + Select(s, keep)
  {
    assert ([x] + s)[1..] == s;
  }

  /** Selection distributes over concatenation. */
  lemma {:induction false} SelectAppend<T(!new)>(a: seq<T>, b: seq<T>, keep: T -> bool)
    ensures Select(a + b, keep) == Select(a, keep) + Select(b, keep)
  {
    if a != [] {
      assert (a + b)[1..] == a[1..] + b;
      SelectAppend(a[1..], b, keep);
    } else {
      assert a + b == b;
    }
  }

  /**
   * `rest.reduce((max, x) => key(x) > key(max) ? x : max, acc)`: the running
   * maximum replaced only by a strictly larger element, so ties keep the
   * earlier one.
   */
  function FirstMax<T(!new)>(key: T -> int, acc: T, rest: seq<T>): (m: T)
    ensures key(m) >= key(acc)
    ensures forall j :: 0 <= j < |rest| ==> key(rest[j]) <= key(m)
    ensures m == acc
            || exists i :: (0 <= i < |rest| && rest[i] == m && key(acc) < key(m)
                 && forall j :: 0 <= j < i ==> key(rest[j]) < key(m))
    decreases |rest|
  {
    if rest == [] then acc
    else
      var next := if key(rest[0]) > key(acc) then rest[0] else acc;
      var m := FirstMax(key, next, rest[1..]);
      FirstMaxShift(key, acc, rest, m);
      m
  }

  /** A strict maximum found in `rest[1..]` after `rest[0]` was considered is one of `rest`. */
  lemma FirstMaxShift<T(!new)>(key: T -> int, acc: T, rest: seq<T>, m: T)
    requires rest != []
    requires var next := if key(rest[0]) > key(acc) then rest[0] else acc;
      m == next
      || exists i :: (0 <= i < |rest[1..]| && rest[1..][i] == m && key(next) < key(m)
           && forall j :: 0 <= j < i ==> key(rest[1..][j]) < key(m))
    ensures m == acc
            || exists i :: (0 <= i < |rest| && rest[i] == m && key(acc) < key(m)
                 && forall j :: 0 <= j < i ==> key(rest[j]) < key(m))
  {
    var next := if key(rest[0]) > key(acc) then rest[0] else acc;
    if m != acc && m == next {
      assert rest[0] == m;
    } else if m != acc {
      var i :| 0 <= i < |rest[1..]| && rest[1..][i] == m && key(next) < key(m)
             && forall j :: 0 <= j < i ==> key(rest[1..][j]) < key(m);
      assert rest[i + 1] == m;
      assert forall j :: 0 <= j < i + 1 ==> key(rest[j]) < key(m) by {
        forall j | 0 <= j < i + 1 ensures key(rest[j]) < key(m) {
          if j > 0 { assert rest[j] == rest[1..][j - 1]; }
        }
      }
    }
  }

  /** Seeded with its own first element, the reduce returns the first element of maximal key. */
  function FirstMaxOf<T(!new)>(key: T -> int, s: seq<T>): (m: T)
    requires s != []
    ensures exists i :: (0 <= i < |s| && s[i] == m
              && (forall j :: 0 <= j < |s| ==> key(s[j]) <= key(m))
              && (forall j :: 0 <= j < i ==> key(s[j]) < key(m)))
  {
    FirstMax(key, s[0], s)
  }
}
