/** The order in which the checker lists files below the threshold:
    `below.sort(key=lambda x: (x[1] / x[2]) if x[2] else 0)`, a stable sort
    ascending by hit ratio. The ratio `hit / found` is kept as the exact
    fraction `KeyNum / KeyDen` (with the key 0 = 0/1 for `found == 0`, as
    in the lambda), and fractions are compared by cross multiplication. */
module CoverageOrder {
  import opened LcovParser

  function KeyNum(x: Record): nat {
    if x.found == 0 then 0 else x.hit
  }

  function KeyDen(x: Record): (d: nat)
    ensures d > 0
  {
    if x.found == 0 then 1 else x.found
  }

  /** The sort key of `x` is at most that of `y`. */
  predicate KeyLe(x: Record, y: Record) {
    KeyNum(x) * KeyDen(y) <= KeyNum(y) * KeyDen(x)
  }

  /** `x` and `y` have the same sort key. */
  predicate SameKey(x: Record, y: Record) {
    KeyNum(x) * KeyDen(y) == KeyNum(y) * KeyDen(x)
  }

  /** The key as the real number the lambda computes (exactly, without
      rounding). */
  function Ratio(x: Record): real {
    if x.found == 0 then 0.0 else x.hit as real / x.found as real
  }

  /** Cross multiplication decides exactly the order of the ratios. */
  lemma KeyLeIsRatioOrder(x: Record, y: Record)
    ensures KeyLe(x, y) <==> Ratio(x) <= Ratio(y)
    ensures SameKey(x, y) <==> Ratio(x) == Ratio(y)
  {
    var nx, dx, ny, dy := KeyNum(x) as real, KeyDen(x) as real, KeyNum(y) as real, KeyDen(y) as real;
    assert Ratio(x) == nx / dx;
    assert Ratio(y) == ny / dy;
    assert nx / dx * (dx * dy) == nx * dy;
    assert ny / dy * (dx * dy) == ny * dx;
    assert (KeyNum(x) * KeyDen(y)) as real == nx * dy;
    assert (KeyNum(y) * KeyDen(x)) as real == ny * dx;
  }

  lemma KeyLeTransitive(x: Record, y: Record, z: Record)
    requires KeyLe(x, y) && KeyLe(y, z)
    ensures KeyLe(x, z)
  {
  }

  /** A record strictly below `x` cannot share a key with anything that
      shares `x`'s key. */
  lemma BelowKeyDiffers(x: Record, y: Record, k: Record)
    requires SameKey(x, k) && !KeyLe(x, y)
    ensures !SameKey(y, k)
  {
  }

  predicate SortedByKey(s: seq<Record>) {
    forall i, j :: 0 <= i < j < |s| ==> KeyLe(s[i], s[j])
  }

  /** `x` placed before the first element of `t` whose key is at least its
      own. */
  function Insert(x: Record, t: seq<Record>): (r: seq<Record>)
    ensures |r| == |t| + 1
  {
    if t == [] then [x]
    else if KeyLe(x, t[0]) then [x] + t
    else [t[0]] + Insert(x, t[1..])
  }

  /** The stable sort by key: insertion from the back, each element going
      in front of the elements with an equal key that follow it. */
  function SortByKey(s: seq<Record>): (r: seq<Record>)
    ensures |r| == |s|
  {
    if s == [] then [] else Insert(s[0], SortByKey(s[1..]))
  }

  /** The elements of `s` whose key equals that of `k`, in order. */
  function WithKeyOf(s: seq<Record>, k: Record): seq<Record> {
    if s == [] then []
    else (if SameKey(s[0], k) then [s[0]] else []) + WithKeyOf(s[1..], k)
  }

  lemma {:induction false} InsertPermutes(x: Record, t: seq<Record>)
    ensures multiset(Insert(x, t)) == multiset(t) + multiset{x}
  {
    if t != [] && !KeyLe(x, t[0]) {
      InsertPermutes(x, t[1..]);
      assert t == [t[0]] + t[1..];
    }
  }

  lemma {:induction false} InsertSorted(x: Record, t: seq<Record>)
    requires SortedByKey(t)
    ensures SortedByKey(Insert(x, t))
  {
    if t == [] {
    } else if KeyLe(x, t[0]) {
      var r := [x] + t;
      forall i, j | 0 <= i < j < |r| ensures KeyLe(r[i], r[j]) {
        if i == 0 {
          if j > 1 { KeyLeTransitive(x, t[0], t[j - 1]); }
        }
      }
    } else {
      var u := Insert(x, t[1..]);
      InsertSorted(x, t[1..]);
      InsertPermutes(x, t[1..]);
      var r := [t[0]] + u;
      forall i, j | 0 <= i < j < |r| ensures KeyLe(r[i], r[j]) {
        if i == 0 {
          assert r[j] == u[j - 1];
          assert r[j] in multiset(u);
          if r[j] != x {
            assert r[j] in multiset(t[1..]);
            var m :| 0 <= m < |t[1..]| && t[1..][m] == r[j];
            assert t[m + 1] == r[j];
          }
        } else {
          assert r[i] == u[i - 1] && r[j] == u[j - 1];
        }
      }
    }
  }

  lemma {:induction false} InsertWithKeyOf(x: Record, t: seq<Record>, k: Record)
    ensures WithKeyOf(Insert(x, t), k) == (if SameKey(x, k) then [x] else []) + WithKeyOf(t, k)
  {
    if t == [] {
      assert WithKeyOf([x], k) == (if SameKey(x, k) then [x] else []) + WithKeyOf([], k);
    } else if KeyLe(x, t[0]) {
      assert ([x] + t)[1..] == t;
    } else {
      var u := Insert(x, t[1..]);
      assert ([t[0]] + u)[1..] == u;
      InsertWithKeyOf(x, t[1..], k);
      if SameKey(x, k) {
        BelowKeyDiffers(x, t[0], k);
      }
    }
  }

  /** The sort returns a permutation of its input. */
  lemma {:induction false} SortPermutes(s: seq<Record>)
    ensures multiset(SortByKey(s)) == multiset(s)
  {
    if s != [] {
      SortPermutes(s[1..]);
      InsertPermutes(s[0], SortByKey(s[1..]));
      assert s == [s[0]] + s[1..];
    }
  }

  /** The sort returns its input in ascending order of key. */
  lemma {:induction false} SortSorts(s: seq<Record>)
    ensures SortedByKey(SortByKey(s))
  {
    if s != [] {
      SortSorts(s[1..]);
      InsertSorted(s[0], SortByKey(s[1..]));
    }
  }

  /** The sort is stable: the elements that share any one key come out in
      the order they went in. */
  lemma {:induction false} SortStable(s: seq<Record>, k: Record)
    ensures WithKeyOf(SortByKey(s), k) == WithKeyOf(s, k)
  {
    if s != [] {
      SortStable(s[1..], k);
      InsertWithKeyOf(s[0], SortByKey(s[1..]), k);
    }
  }
}
