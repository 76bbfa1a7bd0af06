/**
 The relational meaning of `groupBy(...).count()`: one output row per
 distinct grouping key observed in the input, carrying the number of input
 rows with that key. The grouping key is a type parameter; the pipeline uses
 the 4-tuple (customer_id, loyalty_score, product_id, product_category).
 */
module Aggregate {

  /** One row of a grouped count. */
  datatype Group<K> = Group(key: K, count: nat)

  /** No two groups share a key. */
  ghost predicate DistinctKeys<K>(gs: seq<Group<K>>)
  {
    forall i, j :: 0 <= i < j < |gs| ==> gs[i].key != gs[j].key
  }

  lemma DistinctKeysAt<K>(gs: seq<Group<K>>, i: nat, j: nat)
    requires DistinctKeys(gs)
    requires i < j < |gs|
    ensures gs[i].key != gs[j].key
  {
  }

  /** Groups that all equal `Group(k, n)` are that one group when `k` is
      present, and none otherwise. */
  lemma SingleGroup<K>(gs: seq<Group<K>>, k: K, n: nat)
    requires DistinctKeys(gs)
    requires forall i :: 0 <= i < |gs| ==> gs[i] == Group(k, n)
    requires HasKey(gs, k) <==> n > 0
    ensures gs == if n > 0 then [Group(k, n)] else []
  {
    if |gs| > 1 {
      DistinctKeysAt(gs, 0, 1);
      assert false;
    }
    if gs != [] {
      assert gs[0].key == k;
    }
  }

  lemma HasKeyAt<K>(gs: seq<Group<K>>, i: nat)
    requires i < |gs|
    ensures HasKey(gs, gs[i].key)
  {
  }

  /** A grouping that has no key at all is empty. */
  lemma NoGroups<K>(gs: seq<Group<K>>)
    requires forall k :: !HasKey(gs, k)
    ensures gs == []
  {
    if gs != [] {
      HasKeyAt(gs, 0);
      assert false;
    }
  }

  /** Some group has key `k`. */
  ghost predicate HasKey<K>(gs: seq<Group<K>>, k: K)
  {
    exists i :: 0 <= i < |gs| && gs[i].key == k
  }

  lemma HasKeyCons<K>(g: Group<K>, gs: seq<Group<K>>)
    ensures forall k :: HasKey([g] + gs, k) <==> g.key == k || HasKey(gs, k)
  {
    assert ([g] + gs)[0] == g;
    forall k | HasKey(gs, k)
      ensures HasKey([g] + gs, k)
    {
      var i :| 0 <= i < |gs| && gs[i].key == k;
      assert ([g] + gs)[i + 1] == gs[i];
    }
    forall k | HasKey([g] + gs, k) && g.key != k
      ensures HasKey(gs, k)
    {
      var i :| 0 <= i < |[g] + gs| && ([g] + gs)[i].key == k;
      assert gs[i - 1] == ([g] + gs)[i];
    }
  }

  /** Every group counts at least one row. */
  ghost predicate AllObserved<K>(gs: seq<Group<K>>)
  {
    forall i :: 0 <= i < |gs| ==> gs[i].count >= 1
  }

  /** The count recorded for `k`, or 0 when no group has key `k`. */
  function CountOf<K(==)>(gs: seq<Group<K>>, k: K): (n: nat)
    ensures !HasKey(gs, k) ==> n == 0
    ensures DistinctKeys(gs) ==> forall i :: 0 <= i < |gs| && gs[i].key == k ==> n == gs[i].count
  {
    if gs == [] then 0
    else if gs[0].key == k then gs[0].count
    else
      assert forall i :: 1 <= i < |gs| ==> gs[i] == gs[1..][i - 1];
      CountOf(gs[1..], k)
  }

  lemma CountOfCons<K>(g: Group<K>, gs: seq<Group<K>>)
    ensures forall k :: CountOf([g] + gs, k) == if g.key == k then g.count else CountOf(gs, k)
  {
    assert ([g] + gs)[1..] == gs;
  }

  /** Sum of all counts. */
  function TotalCount<K>(gs: seq<Group<K>>): nat
  {
    if gs == [] then 0 else gs[0].count + TotalCount(gs[1..])
  }

  /** Records one more row with key `x`: its group's count goes up by one, or
      a new group with count 1 is appended. */
  function Bump<K(==,!new)>(gs: seq<Group<K>>, x: K): (r: seq<Group<K>>)
    requires DistinctKeys(gs)
    ensures DistinctKeys(r)
    ensures forall k :: HasKey(r, k) <==> HasKey(gs, k) || k == x
    ensures forall k :: CountOf(r, k) == CountOf(gs, k) + (if k == x then 1 else 0)
    ensures TotalCount(r) == TotalCount(gs) + 1
  {
    if gs == [] then [Group(x, 1)]
    else if gs[0].key == x then
      assert forall i :: 1 <= i < |gs| ==> gs[i] == gs[1..][i - 1];
      var r := [Group(x, gs[0].count + 1)] + gs[1..];
      assert r[1..] == gs[1..];
      assert forall i :: 0 <= i < |r| ==> r[i].key == gs[i].key;
      r
    else
      assert forall i :: 1 <= i < |gs| ==> gs[i] == gs[1..][i - 1];
      var rest := Bump(gs[1..], x);
      assert !HasKey(gs[1..], gs[0].key);
      assert forall i :: 0 <= i < |rest| ==> rest[i].key != gs[0].key;
      assert gs == [gs[0]] + gs[1..];
      HasKeyCons(gs[0], gs[1..]);
      HasKeyCons(gs[0], rest);
      CountOfCons(gs[0], rest);
      [gs[0]] + rest
  }

  /** The grouped count of `rows`, groups in order of first appearance. */
  function GroupCount<K(==,!new)>(rows: seq<K>): (r: seq<Group<K>>)
    ensures DistinctKeys(r)
    ensures AllObserved(r)
    ensures forall k :: HasKey(r, k) <==> k in rows
    ensures forall i :: 0 <= i < |r| ==> r[i].count == multiset(rows)[r[i].key]
    ensures forall k :: CountOf(r, k) == multiset(rows)[k]
    ensures TotalCount(r) == |rows|
  {
    if rows == [] then []
    else
      var init := rows[..|rows| - 1];
      var last := rows[|rows| - 1];
      assert rows == init + [last];
      var r := Bump(GroupCount(init), last);
      assert forall k :: multiset(rows)[k] == multiset(init)[k] + if k == last then 1 else 0;
      assert forall k :: CountOf(r, k) == multiset(rows)[k];
      assert forall i :: 0 <= i < |r| ==> r[i].count == CountOf(r, r[i].key);
      assert forall i :: 0 <= i < |r| ==> HasKey(r, r[i].key);
      r
  }

  /** Two groupings that each list every row key once, with its count, agree
      when their inputs hold the same rows. */
  lemma GroupsAgree<K>(ga: seq<Group<K>>, a: seq<K>, gb: seq<Group<K>>, b: seq<K>)
    requires multiset(a) == multiset(b)
    requires forall i :: 0 <= i < |ga| ==> ga[i].key in a && ga[i].count == multiset(a)[ga[i].key]
    requires forall k :: k in b ==> HasKey(gb, k)
    requires forall j :: 0 <= j < |gb| ==> gb[j].count == multiset(b)[gb[j].key]
    ensures forall g :: g in ga ==> g in gb
  {
    forall g | g in ga
      ensures g in gb
    {
      var i :| 0 <= i < |ga| && ga[i] == g;
      assert g.key in multiset(b);
      assert HasKey(gb, g.key);
      var j :| 0 <= j < |gb| && gb[j].key == g.key;
      assert gb[j] == g;
    }
  }

  lemma GroupCountSubset<K(!new)>(a: seq<K>, b: seq<K>)
    requires multiset(a) == multiset(b)
    ensures forall g :: g in GroupCount(a) ==> g in GroupCount(b)
  {
    var ga, gb := GroupCount(a), GroupCount(b);
    assert forall i :: 0 <= i < |ga| ==> HasKey(ga, ga[i].key);
    GroupsAgree(ga, a, gb, b);
  }

  /** A grouping with distinct keys holds each group at most once. */
  lemma {:induction false} DistinctKeysMultiset<K>(gs: seq<Group<K>>)
    requires DistinctKeys(gs)
    ensures forall g :: multiset(gs)[g] == if g in gs then 1 else 0
  {
    if gs != [] {
      var tail := gs[1..];
      assert forall i :: 0 <= i < |tail| ==> tail[i] == gs[i + 1];
      DistinctKeysMultiset(tail);
      assert gs[0] !in tail by {
        forall i | 0 <= i < |tail|
          ensures tail[i] != gs[0]
        {
          DistinctKeysAt(gs, 0, i + 1);
        }
      }
      assert gs == [gs[0]] + tail;
    }
  }

  /** Two groupings with distinct keys and the same groups are permutations
      of each other. */
  lemma SameGroups<K>(ga: seq<Group<K>>, gb: seq<Group<K>>)
    requires DistinctKeys(ga) && DistinctKeys(gb)
    requires forall g :: g in ga <==> g in gb
    ensures multiset(ga) == multiset(gb)
  {
    DistinctKeysMultiset(ga);
    DistinctKeysMultiset(gb);
    assert forall g :: multiset(ga)[g] == multiset(gb)[g];
  }

  /** The grouped count depends only on the multiset of input rows: any
      reordering yields the same groups with the same counts, up to the
      order of the groups. */
  lemma GroupCountOrderIndependent<K(!new)>(a: seq<K>, b: seq<K>)
    requires multiset(a) == multiset(b)
    ensures multiset(GroupCount(a)) == multiset(GroupCount(b))
  {
    GroupCountSubset(a, b);
    GroupCountSubset(b, a);
    SameGroups(GroupCount(a), GroupCount(b));
  }
}
