/**
 Transaction envelopes and their flattening (`explode_json_date`).

 An envelope is one purchase session of one customer: the customer, the
 date and a basket of items. Flattening turns every basket item into its own
 row carrying the envelope's `customer_id` and `date_of_purchase` next to the
 item's own fields. It is Spark's `explode`, not `explode_outer`: an
 envelope with an empty basket yields no row at all.
 */
module Transactions {
  import opened Relational

  /** One element of a basket. `price` is carried along, never interpreted. */
  datatype BasketItem = BasketItem(productId: int, price: real)

  /** One record of the transactions input. */
  datatype Envelope = Envelope(customerId: int, dateOfPurchase: string, basket: seq<BasketItem>)

  /** One flattened row: the parent's customer and date, then the item's fields. */
  datatype TxRow = TxRow(customerId: int, dateOfPurchase: string, productId: int, price: real)

  /** The row that `item` of envelope `e` becomes. */
  function RowOf(e: Envelope, item: BasketItem): TxRow
  {
    TxRow(e.customerId, e.dateOfPurchase, item.productId, item.price)
  }

  /** Number of basket items over all envelopes. */
  function TotalItems(envs: seq<Envelope>): nat
  {
    if envs == [] then 0 else |envs[0].basket| + TotalItems(envs[1..])
  }

  /** Number of items with product `p` in `basket`. */
  function Occurrences(basket: seq<BasketItem>, p: int): nat
  {
    if basket == [] then 0
    else (if basket[0].productId == p then 1 else 0) + Occurrences(basket[1..], p)
  }

  /** Number of items with product `p` over the envelopes of customer `c`. */
  function ItemCount(envs: seq<Envelope>, c: int, p: int): nat
  {
    if envs == [] then 0
    else (if envs[0].customerId == c then Occurrences(envs[0].basket, p) else 0) + ItemCount(envs[1..], c, p)
  }

  /** The rows of one envelope: one per basket element, in basket order, each
      with the envelope's customer and date and the element's own fields. */
  function Explode(e: Envelope): (r: seq<TxRow>)
    ensures |r| == |e.basket|
    ensures forall i :: 0 <= i < |r| ==>
      && r[i].customerId == e.customerId
      && r[i].dateOfPurchase == e.dateOfPurchase
      && r[i].productId == e.basket[i].productId
      && r[i].price == e.basket[i].price
  {
    seq(|e.basket|, i requires 0 <= i < |e.basket| => RowOf(e, e.basket[i]))
  }

  /** `explode_json_date`: the rows of all envelopes, envelope by envelope. */
  function Flatten(envs: seq<Envelope>): (r: seq<TxRow>)
    ensures |r| == TotalItems(envs)
  {
    if envs == [] then [] else Explode(envs[0]) + Flatten(envs[1..])
  }

  lemma {:induction false} FlattenAppend(a: seq<Envelope>, b: seq<Envelope>)
    ensures Flatten(a + b) == Flatten(a) + Flatten(b)
  {
    if a == [] {
      assert a + b == b;
    } else {
      assert (a + b)[1..] == a[1..] + b;
      FlattenAppend(a[1..], b);
    }
  }

  /** Provenance: a row is flattened output exactly when it is some basket
      element of some envelope, carrying that envelope's customer and date. */
  lemma {:induction false} FlattenMembership(envs: seq<Envelope>)
    ensures forall t :: t in Flatten(envs) <==>
      exists i, j :: 0 <= i < |envs| && 0 <= j < |envs[i].basket| && t == RowOf(envs[i], envs[i].basket[j])
  {
    if envs != [] {
      FlattenMembership(envs[1..]);
      assert forall i :: 1 <= i < |envs| ==> envs[i] == envs[1..][i - 1];
      var e := Explode(envs[0]);
      assert forall j :: 0 <= j < |e| ==> e[j] == RowOf(envs[0], envs[0].basket[j]);
    }
  }

  lemma FlattenOfEmpty(e: Envelope)
    requires e.basket == []
    ensures Flatten([e]) == []
  {
    assert [e][1..] == [];
  }

  /** An envelope with an empty basket contributes no rows: removing it does
      not change the flattened table. */
  lemma {:induction false} FlattenSkipsEmpty(envs: seq<Envelope>, k: nat)
    requires k < |envs|
    requires envs[k].basket == []
    ensures Flatten(envs) == Flatten(envs[..k] + envs[k + 1..])
  {
    var pre, post := envs[..k], envs[k + 1..];
    assert envs == pre + ([envs[k]] + post);
    FlattenAppend(pre, [envs[k]] + post);
    FlattenAppend([envs[k]], post);
    FlattenAppend(pre, post);
    FlattenOfEmpty(envs[k]);
  }

  /** The rows of one envelope for (c, p) number the items of `p` in its
      basket when the envelope belongs to `c`, and none otherwise. */
  lemma {:induction false} ExplodeCount(e: Envelope, c: int, p: int, wanted: TxRow -> bool)
    requires forall t :: wanted(t) <==> t.customerId == c && t.productId == p
    ensures CountIf(Explode(e), wanted) == if e.customerId == c then Occurrences(e.basket, p) else 0
    decreases |e.basket|
  {
    if e.basket != [] {
      var tail := e.(basket := e.basket[1..]);
      assert Explode(e) == [RowOf(e, e.basket[0])] + Explode(tail);
      ExplodeCount(tail, c, p, wanted);
    }
  }

  /** The flattened rows for customer `c` and product `p` number exactly the
      basket items of `p` across the envelopes of `c`. */
  lemma {:induction false} FlattenCount(envs: seq<Envelope>, c: int, p: int, wanted: TxRow -> bool)
    requires forall t :: wanted(t) <==> t.customerId == c && t.productId == p
    ensures CountIf(Flatten(envs), wanted) == ItemCount(envs, c, p)
  {
    if envs != [] {
      CountIfAppend(Explode(envs[0]), Flatten(envs[1..]), wanted);
      ExplodeCount(envs[0], c, p, wanted);
      FlattenCount(envs[1..], c, p, wanted);
    }
  }
}
