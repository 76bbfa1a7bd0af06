/**
 The relational meaning of `join_dfs`: an equi-join of two tables on a key,
 in the default ("inner") mode. A table is a sequence of rows; the order of
 the rows is not part of the meaning, so every property below is stated with
 counts, which do not depend on order.

 The join is parametric in the row types, the key type, the two key
 extractors and the `merge` function that builds an output row out of a
 matching pair (the union of both schemas with the key kept once).
 */
module Relational {

  /** Number of rows of `s` that satisfy `p`. */
  function CountIf<T>(s: seq<T>, p: T -> bool): (n: nat)
    ensures n <= |s|
  {
    if s == [] then 0 else (if p(s[0]) then 1 else 0) + CountIf(s[1..], p)
  }

  /** Some row is counted exactly when some row satisfies `p`. */
  lemma {:induction false} CountIfPositive<T>(s: seq<T>, p: T -> bool)
    ensures CountIf(s, p) > 0 <==> exists i :: 0 <= i < |s| && p(s[i])
  {
    if s != [] {
      CountIfPositive(s[1..], p);
      assert forall i :: 1 <= i < |s| ==> s[i] == s[1..][i - 1];
    }
  }

  /** Number of rows of `s` whose key is `k`. */
  function KeyCount<T, K(==)>(s: seq<T>, key: T -> K, k: K): (n: nat)
    ensures n <= |s|
    ensures n == 0 <==> forall i :: 0 <= i < |s| ==> key(s[i]) != k
  {
    if s == [] then 0
    else
      var rest := KeyCount(s[1..], key, k);
      assert forall i :: 1 <= i < |s| ==> s[i] == s[1..][i - 1];
      (if key(s[0]) == k then 1 else 0) + rest
  }

  /** No two rows of `s` share a key. */
  ghost predicate UniqueKeys<T, K>(s: seq<T>, key: T -> K)
  {
    forall i, j :: 0 <= i < j < |s| ==> key(s[i]) != key(s[j])
  }

  /** The output rows produced by one left row `l`: one per row of `right`
      with the same key, in the order of `right`. */
  function Matches<L, R, K(==), O>(l: L, right: seq<R>, lkey: L -> K, rkey: R -> K, merge: (L, R) -> O): (r: seq<O>)
    ensures |r| <= |right|
  {
    if right == [] then []
    else (if rkey(right[0]) == lkey(l) then [merge(l, right[0])] else []) + Matches(l, right[1..], lkey, rkey, merge)
  }

  /** A row is in `Matches(l, right)` exactly when it merges `l` with a row of
      `right` that has the same key. */
  lemma {:induction false} MatchesMembership<L, R, K, O(!new)>(l: L, right: seq<R>, lkey: L -> K, rkey: R -> K, merge: (L, R) -> O)
    ensures forall o :: o in Matches(l, right, lkey, rkey, merge) <==>
      exists j :: 0 <= j < |right| && rkey(right[j]) == lkey(l) && o == merge(l, right[j])
  {
    if right != [] {
      MatchesMembership(l, right[1..], lkey, rkey, merge);
      assert forall j :: 1 <= j < |right| ==> right[j] == right[1..][j - 1];
    }
  }

  /** A left row whose key no right row has produces no output rows. */
  lemma {:induction false} MatchesNone<L, R, K, O>(l: L, right: seq<R>, lkey: L -> K, rkey: R -> K, merge: (L, R) -> O)
    requires forall j :: 0 <= j < |right| ==> rkey(right[j]) != lkey(l)
    ensures Matches(l, right, lkey, rkey, merge) == []
  {
    if right != [] {
      assert forall j :: 0 <= j < |right[1..]| ==> right[1..][j] == right[j + 1];
      MatchesNone(l, right[1..], lkey, rkey, merge);
    }
  }

  /** Inner equi-join: a nested loop over `left`, then `right`. A row is in
      the join exactly when it merges a left row with a right row that has
      the same key: rows without a match on the other side vanish. */
  function Join<L, R, K(==), O(!new)>(left: seq<L>, right: seq<R>, lkey: L -> K, rkey: R -> K, merge: (L, R) -> O): (r: seq<O>)
    ensures forall o :: o in r <==>
      exists i, j :: 0 <= i < |left| && 0 <= j < |right| && lkey(left[i]) == rkey(right[j]) && o == merge(left[i], right[j])
  {
    if left == [] then []
    else
      MatchesMembership(left[0], right, lkey, rkey, merge);
      assert forall i :: 1 <= i < |left| ==> left[i] == left[1..][i - 1];
      Matches(left[0], right, lkey, rkey, merge) + Join(left[1..], right, lkey, rkey, merge)
  }

  lemma {:induction false} CountIfAppend<T>(a: seq<T>, b: seq<T>, p: T -> bool)
    ensures CountIf(a + b, p) == CountIf(a, p) + CountIf(b, p)
  {
    if a == [] {
      assert a + b == b;
    } else {
      assert (a + b)[1..] == a[1..] + b;
      CountIfAppend(a[1..], b, p);
    }
  }

  /** `KeyCount` is the `CountIf` of "the key is `k`". */
  lemma {:induction false} KeyCountIsCountIf<T, K>(s: seq<T>, key: T -> K, k: K, p: T -> bool)
    requires forall x :: p(x) <==> key(x) == k
    ensures KeyCount(s, key, k) == CountIf(s, p)
  {
    if s != [] {
      KeyCountIsCountIf(s[1..], key, k, p);
    }
  }

  /** With unique keys, at most one row satisfies a predicate that fixes the key. */
  lemma {:induction false} CountIfUniqueKey<T, K>(s: seq<T>, key: T -> K, k: K, p: T -> bool)
    requires UniqueKeys(s, key)
    requires forall x :: p(x) ==> key(x) == k
    ensures CountIf(s, p) <= 1
  {
    if s != [] {
      assert forall i :: 1 <= i < |s| ==> s[i] == s[1..][i - 1];
      CountIfUniqueKey(s[1..], key, k, p);
      CountIfPositive(s[1..], p);
      if p(s[0]) {
        assert forall i :: 0 <= i < |s[1..]| ==> !p(s[1..][i]);
      }
    }
  }

  lemma {:induction false} MatchesAppend<L, R, K, O>(l: L, a: seq<R>, b: seq<R>, lkey: L -> K, rkey: R -> K, merge: (L, R) -> O)
    ensures Matches(l, a + b, lkey, rkey, merge) == Matches(l, a, lkey, rkey, merge) + Matches(l, b, lkey, rkey, merge)
  {
    if a == [] {
      assert a + b == b;
    } else {
      var head: seq<O> := if rkey(a[0]) == lkey(l) then [merge(l, a[0])] else [];
      assert (a + b)[0] == a[0];
      assert (a + b)[1..] == a[1..] + b;
      MatchesAppend(l, a[1..], b, lkey, rkey, merge);
      assert Matches(l, a + b, lkey, rkey, merge) == head + Matches(l, a[1..] + b, lkey, rkey, merge);
      assert Matches(l, a, lkey, rkey, merge) == head + Matches(l, a[1..], lkey, rkey, merge);
    }
  }

  lemma {:induction false} JoinAppend<L, R, K, O(!new)>(a: seq<L>, b: seq<L>, right: seq<R>, lkey: L -> K, rkey: R -> K, merge: (L, R) -> O)
    ensures Join(a + b, right, lkey, rkey, merge) == Join(a, right, lkey, rkey, merge) + Join(b, right, lkey, rkey, merge)
  {
    if a == [] {
      assert a + b == b;
    } else {
      assert (a + b)[1..] == a[1..] + b;
      JoinAppend(a[1..], b, right, lkey, rkey, merge);
    }
  }

  /** A predicate `p` on output rows is separable into `pl` on the left row and
      `pr` on the right row: on a matching pair, `p` of the merged row is
      `pl && pr`, and `pl` and `pr` together pin both sides to one key. */
  ghost predicate Separable<L(!new), R(!new), K, O(!new)>(lkey: L -> K, rkey: R -> K, merge: (L, R) -> O, p: O -> bool, pl: L -> bool, pr: R -> bool)
  {
    && (forall l, r :: lkey(l) == rkey(r) ==> (p(merge(l, r)) <==> pl(l) && pr(r)))
    && (forall l, r :: pl(l) && pr(r) ==> lkey(l) == rkey(r))
  }

  lemma {:induction false} MatchesCount<L(!new), R(!new), K, O(!new)>(l: L, right: seq<R>, lkey: L -> K, rkey: R -> K, merge: (L, R) -> O,
                                                    p: O -> bool, pl: L -> bool, pr: R -> bool)
    requires Separable(lkey, rkey, merge, p, pl, pr)
    ensures CountIf(Matches(l, right, lkey, rkey, merge), p) == if pl(l) then CountIf(right, pr) else 0
  {
    if right != [] {
      var head: seq<O> := if rkey(right[0]) == lkey(l) then [merge(l, right[0])] else [];
      var rest := Matches(l, right[1..], lkey, rkey, merge);
      assert Matches(l, right, lkey, rkey, merge) == head + rest;
      CountIfAppend(head, rest, p);
      MatchesCount(l, right[1..], lkey, rkey, merge, p, pl, pr);
    }
  }

  lemma Distribute(a: nat, b: nat, n: nat)
    ensures (a + b) * n == a * n + b * n
  {
  }

  /** Counting the join through a separable predicate multiplies the counts
      of the two sides: every left row meets every right row with its key. */
  lemma {:induction false} JoinCount<L(!new), R(!new), K, O(!new)>(left: seq<L>, right: seq<R>, lkey: L -> K, rkey: R -> K, merge: (L, R) -> O,
                                                 p: O -> bool, pl: L -> bool, pr: R -> bool)
    requires Separable(lkey, rkey, merge, p, pl, pr)
    ensures CountIf(Join(left, right, lkey, rkey, merge), p) == CountIf(left, pl) * CountIf(right, pr)
  {
    if left != [] {
      var m := Matches(left[0], right, lkey, rkey, merge);
      var rest := Join(left[1..], right, lkey, rkey, merge);
      assert Join(left, right, lkey, rkey, merge) == m + rest;
      CountIfAppend(m, rest, p);
      MatchesCount(left[0], right, lkey, rkey, merge, p, pl, pr);
      JoinCount(left[1..], right, lkey, rkey, merge, p, pl, pr);
      var c, n := CountIf(left[1..], pl), CountIf(right, pr);
      assert CountIf(rest, p) == c * n;
      if pl(left[0]) {
        assert CountIf(m, p) == n;
        assert CountIf(left, pl) == 1 + c;
        Distribute(1, c, n);
      } else {
        assert CountIf(m, p) == 0;
        assert CountIf(left, pl) == c;
      }
    }
  }

  /** Join multiplicity: a key occurring k times on the left and m times on
      the right occurs k * m times in the output; nothing is de-duplicated. */
  lemma JoinKeyMultiplicity<L(!new), R(!new), K, O(!new)>(left: seq<L>, right: seq<R>, lkey: L -> K, rkey: R -> K, merge: (L, R) -> O,
                                        okey: O -> K, k: K)
    requires forall l, r :: lkey(l) == rkey(r) ==> okey(merge(l, r)) == lkey(l)
    ensures KeyCount(Join(left, right, lkey, rkey, merge), okey, k) == KeyCount(left, lkey, k) * KeyCount(right, rkey, k)
  {
    var p := (o: O) => okey(o) == k;
    var pl := (l: L) => lkey(l) == k;
    var pr := (r: R) => rkey(r) == k;
    JoinCount(left, right, lkey, rkey, merge, p, pl, pr);
    KeyCountIsCountIf(Join(left, right, lkey, rkey, merge), okey, k, p);
    KeyCountIsCountIf(left, lkey, k, pl);
    KeyCountIsCountIf(right, rkey, k, pr);
  }

  /** A left row whose key has no match on the right contributes nothing. */
  lemma {:induction false} JoinDropsUnmatchedLeft<L, R, K, O(!new)>(left: seq<L>, right: seq<R>, lkey: L -> K, rkey: R -> K, merge: (L, R) -> O, i: nat)
    requires i < |left|
    requires forall j :: 0 <= j < |right| ==> rkey(right[j]) != lkey(left[i])
    ensures Join(left, right, lkey, rkey, merge) == Join(left[..i] + left[i + 1..], right, lkey, rkey, merge)
  {
    var pre, post := left[..i], left[i + 1..];
    var m := Matches(left[i], right, lkey, rkey, merge);
    MatchesNone(left[i], right, lkey, rkey, merge);
    assert Join([left[i]], right, lkey, rkey, merge) == [] by {
      assert [left[i]][1..] == [];
    }
    assert left == pre + ([left[i]] + post);
    JoinAppend(pre, [left[i]] + post, right, lkey, rkey, merge);
    JoinAppend([left[i]], post, right, lkey, rkey, merge);
    JoinAppend(pre, post, right, lkey, rkey, merge);
  }

  /** Removing a right row whose key differs from `l`'s leaves `Matches` unchanged. */
  lemma {:induction false} MatchesSkipsUnmatched<L, R, K, O>(l: L, right: seq<R>, lkey: L -> K, rkey: R -> K, merge: (L, R) -> O, j: nat)
    requires j < |right|
    requires rkey(right[j]) != lkey(l)
    ensures Matches(l, right, lkey, rkey, merge) == Matches(l, right[..j] + right[j + 1..], lkey, rkey, merge)
  {
    var pre, post := right[..j], right[j + 1..];
    assert right == pre + ([right[j]] + post);
    MatchesAppend(l, pre, [right[j]] + post, lkey, rkey, merge);
    MatchesAppend(l, [right[j]], post, lkey, rkey, merge);
    MatchesAppend(l, pre, post, lkey, rkey, merge);
    MatchesNone(l, [right[j]], lkey, rkey, merge);
  }

  /** A right row whose key has no match on the left contributes nothing. */
  lemma {:induction false} JoinDropsUnmatchedRight<L, R, K, O(!new)>(left: seq<L>, right: seq<R>, lkey: L -> K, rkey: R -> K, merge: (L, R) -> O, j: nat)
    requires j < |right|
    requires forall i :: 0 <= i < |left| ==> lkey(left[i]) != rkey(right[j])
    ensures Join(left, right, lkey, rkey, merge) == Join(left, right[..j] + right[j + 1..], lkey, rkey, merge)
  {
    if left != [] {
      MatchesSkipsUnmatched(left[0], right, lkey, rkey, merge, j);
      assert forall i :: 0 <= i < |left[1..]| ==> left[1..][i] == left[i + 1];
      JoinDropsUnmatchedRight(left[1..], right, lkey, rkey, merge, j);
    }
  }
}
