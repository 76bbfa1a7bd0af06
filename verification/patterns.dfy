/**
 `get_patterns`: customers, products and flattened transactions are joined
 on `customer_id` and then on `product_id`, the result is projected onto
 (customer_id, loyalty_score, product_id, product_category), and that tuple
 is grouped and counted.

 Reading the three inputs and writing the output are not part of this
 module: the tables arrive already parsed, as sequences of records.
 */
module Patterns {
  import opened Relational
  import opened Aggregate
  import opened Transactions

  /** A row of the customers table. */
  datatype Customer = Customer(customerId: int, loyaltyScore: string)

  /** A row of the products table. */
  datatype Product = Product(productId: int, productDescription: string, productCategory: string)

  /** A row of customers joined with flattened transactions on `customer_id`. */
  datatype CustomerTx = CustomerTx(customerId: int, loyaltyScore: string, dateOfPurchase: string, productId: int, price: real)

  /** A row of the final table: the above joined with products on `product_id`. */
  datatype Fact = Fact(productId: int, customerId: int, loyaltyScore: string, dateOfPurchase: string, price: real,
                       productDescription: string, productCategory: string)

  /** The grouping tuple of the output. */
  datatype PatternKey = PatternKey(customerId: int, loyaltyScore: string, productId: int, productCategory: string)

  /** One output row: the grouping tuple and its count. */
  type PatternCount = Group<PatternKey>

  // Join keys and the merged rows of the two joins.

  function CustomerKey(c: Customer): int { c.customerId }

  function TxCustomerKey(t: TxRow): int { t.customerId }

  function CustomerTxProductKey(x: CustomerTx): int { x.productId }

  function ProductKey(p: Product): int { p.productId }

  function MergeCustomer(c: Customer, t: TxRow): CustomerTx
  {
    CustomerTx(c.customerId, c.loyaltyScore, t.dateOfPurchase, t.productId, t.price)
  }

  function MergeProduct(x: CustomerTx, p: Product): Fact
  {
    Fact(x.productId, x.customerId, x.loyaltyScore, x.dateOfPurchase, x.price, p.productDescription, p.productCategory)
  }

  /** `join_dfs(customer_df, transactions_df, "customer_id")`: the joined rows
      for customer (c, l) and product p number the customers rows (c, l)
      times the transaction rows of c for p. */
  function JoinCustomers(cs: seq<Customer>, rows: seq<TxRow>): (r: seq<CustomerTx>)
    ensures forall c, l, p :: CountIf(r, IsCustomerPurchase(c, l, p)) == CustomerCount(cs, c, l) * CountIf(rows, IsPurchase(c, p))
  {
    var r := Join(cs, rows, CustomerKey, TxCustomerKey, MergeCustomer);
    assert forall c, l, p :: CountIf(r, IsCustomerPurchase(c, l, p)) == CustomerCount(cs, c, l) * CountIf(rows, IsPurchase(c, p)) by {
      forall c, l, p
        ensures CountIf(r, IsCustomerPurchase(c, l, p)) == CustomerCount(cs, c, l) * CountIf(rows, IsPurchase(c, p))
      {
        SeparableCustomers(c, l, p);
        JoinCount(cs, rows, CustomerKey, TxCustomerKey, MergeCustomer, IsCustomerPurchase(c, l, p), IsCustomer(c, l), IsPurchase(c, p));
      }
    }
    r
  }

  /** `join_dfs(cus_tans_df, products_df, "product_id")`: the joined rows with
      grouping tuple k number the rows of `xs` for k's customer, loyalty and
      product times the products rows with k's product and category. */
  function JoinProducts(xs: seq<CustomerTx>, ps: seq<Product>): (r: seq<Fact>)
    ensures forall k :: CountIf(r, IsPattern(k)) == PurchaseCount(xs, k) * ProductCount(ps, k.productId, k.productCategory)
  {
    var r := Join(xs, ps, CustomerTxProductKey, ProductKey, MergeProduct);
    assert forall k :: CountIf(r, IsPattern(k)) == PurchaseCount(xs, k) * ProductCount(ps, k.productId, k.productCategory) by {
      forall k
        ensures CountIf(r, IsPattern(k)) == PurchaseCount(xs, k) * ProductCount(ps, k.productId, k.productCategory)
      {
        SeparableProducts(k);
        JoinCount(xs, ps, CustomerTxProductKey, ProductKey, MergeProduct, IsPattern(k),
                  IsCustomerPurchase(k.customerId, k.loyaltyScore, k.productId), IsProduct(k.productId, k.productCategory));
      }
    }
    r
  }

  /** The final joined table that the projection and grouping consume: the
      rows with grouping tuple k number `Expected(k)`, a count stated on the
      three inputs alone. */
  function FinalTable(cs: seq<Customer>, ps: seq<Product>, envs: seq<Envelope>): (r: seq<Fact>)
    ensures forall k :: CountIf(r, IsPattern(k)) == Expected(cs, ps, envs, k)
  {
    var rows := Flatten(envs);
    var r := JoinProducts(JoinCustomers(cs, rows), ps);
    assert forall k :: CountIf(r, IsPattern(k)) == Expected(cs, ps, envs, k) by {
      forall k
        ensures CountIf(r, IsPattern(k)) == Expected(cs, ps, envs, k)
      {
        FlattenCount(envs, k.customerId, k.productId, IsPurchase(k.customerId, k.productId));
        Reassociate(CustomerCount(cs, k.customerId, k.loyaltyScore), ProductCount(ps, k.productId, k.productCategory),
                    ItemCount(envs, k.customerId, k.productId));
      }
    }
    r
  }

  function KeyOf(f: Fact): PatternKey
  {
    PatternKey(f.customerId, f.loyaltyScore, f.productId, f.productCategory)
  }

  /** The `select` of the four grouping columns, row by row. */
  function Project(facts: seq<Fact>): (r: seq<PatternKey>)
    ensures |r| == |facts|
    ensures forall i :: 0 <= i < |r| ==>
      && r[i].customerId == facts[i].customerId
      && r[i].loyaltyScore == facts[i].loyaltyScore
      && r[i].productId == facts[i].productId
      && r[i].productCategory == facts[i].productCategory
  {
    seq(|facts|, i requires 0 <= i < |facts| => KeyOf(facts[i]))
  }

  // Row selectors used to count through the pipeline.

  function IsCustomer(c: int, l: string): Customer -> bool
  {
    (x: Customer) => x.customerId == c && x.loyaltyScore == l
  }

  function IsProduct(p: int, cat: string): Product -> bool
  {
    (y: Product) => y.productId == p && y.productCategory == cat
  }

  function IsPurchase(c: int, p: int): TxRow -> bool
  {
    (t: TxRow) => t.customerId == c && t.productId == p
  }

  function IsCustomerPurchase(c: int, l: string, p: int): CustomerTx -> bool
  {
    (x: CustomerTx) => x.customerId == c && x.loyaltyScore == l && x.productId == p
  }

  function IsPattern(k: PatternKey): Fact -> bool
  {
    (f: Fact) => KeyOf(f) == k
  }

  /** Number of customers rows (c, l). */
  function CustomerCount(cs: seq<Customer>, c: int, l: string): nat
  {
    CountIf(cs, IsCustomer(c, l))
  }

  /** Number of customer-transaction rows with k's customer, loyalty and product. */
  function PurchaseCount(xs: seq<CustomerTx>, k: PatternKey): nat
  {
    CountIf(xs, IsCustomerPurchase(k.customerId, k.loyaltyScore, k.productId))
  }

  /** Number of products rows with id `p` and category `cat`. */
  function ProductCount(ps: seq<Product>, p: int, cat: string): nat
  {
    CountIf(ps, IsProduct(p, cat))
  }

  /** The count the pipeline must report for `k`, stated on the inputs alone:
      matching customer rows times matching product rows times the basket
      items of that product in that customer's envelopes. */
  function Expected(cs: seq<Customer>, ps: seq<Product>, envs: seq<Envelope>, k: PatternKey): nat
  {
    CustomerCount(cs, k.customerId, k.loyaltyScore) * ProductCount(ps, k.productId, k.productCategory)
      * ItemCount(envs, k.customerId, k.productId)
  }

  /** The projection keeps one grouping tuple per fact. */
  lemma {:induction false} ProjectCount(facts: seq<Fact>, k: PatternKey)
    ensures multiset(Project(facts))[k] == CountIf(facts, IsPattern(k))
  {
    if facts != [] {
      assert Project(facts) == [KeyOf(facts[0])] + Project(facts[1..]);
      ProjectCount(facts[1..], k);
    }
  }

  lemma SeparableProducts(k: PatternKey)
    ensures Separable(CustomerTxProductKey, ProductKey, MergeProduct, IsPattern(k),
                      IsCustomerPurchase(k.customerId, k.loyaltyScore, k.productId), IsProduct(k.productId, k.productCategory))
  {
  }

  lemma SeparableCustomers(c: int, l: string, p: int)
    ensures Separable(CustomerKey, TxCustomerKey, MergeCustomer, IsCustomerPurchase(c, l, p), IsCustomer(c, l), IsPurchase(c, p))
  {
  }

  lemma Reassociate(a: nat, b: nat, n: nat)
    ensures (a * n) * b == a * b * n
  {
  }

  /** The number of final rows with grouping tuple `k` is `Expected(k)`:
      each join multiplies the counts of its two sides. */
  lemma PatternMultiplicity(cs: seq<Customer>, ps: seq<Product>, envs: seq<Envelope>, k: PatternKey)
    ensures multiset(Project(FinalTable(cs, ps, envs)))[k] == Expected(cs, ps, envs, k)
  {
    ProjectCount(FinalTable(cs, ps, envs), k);
  }

  /** `get_patterns`: one row per observed grouping tuple, with its count. */
  function GetPatterns(cs: seq<Customer>, ps: seq<Product>, envs: seq<Envelope>): (r: seq<PatternCount>)
    ensures DistinctKeys(r)
    ensures AllObserved(r)
    ensures forall i :: 0 <= i < |r| ==> r[i].count == Expected(cs, ps, envs, r[i].key)
    ensures forall k :: HasKey(r, k) <==> Expected(cs, ps, envs, k) > 0
  {
    var keys := Project(FinalTable(cs, ps, envs));
    var r := GroupCount(keys);
    assert forall k :: multiset(keys)[k] == Expected(cs, ps, envs, k) by {
      forall k
        ensures multiset(keys)[k] == Expected(cs, ps, envs, k)
      {
        PatternMultiplicity(cs, ps, envs, k);
      }
    }
    r
  }

  /** The counts add up to the number of rows of the final joined table. */
  lemma PatternsTotal(cs: seq<Customer>, ps: seq<Product>, envs: seq<Envelope>)
    ensures TotalCount(GetPatterns(cs, ps, envs)) == |FinalTable(cs, ps, envs)|
  {
  }

  /** Some products row has id `p` and category `cat`. */
  ghost predicate HasProduct(ps: seq<Product>, p: int, cat: string)
  {
    exists j :: 0 <= j < |ps| && ps[j].productId == p && ps[j].productCategory == cat
  }

  lemma PositiveFactors(a: nat, b: nat, n: nat)
    ensures a * b * n > 0 <==> a > 0 && b > 0 && n > 0
  {
    if a > 0 && b > 0 && n > 0 {
      assert a * b >= 1;
      assert a * b * n >= n;
    }
  }

  /** Provenance of the final table: a row is there exactly when a customer,
      a basket item of one of that customer's envelopes, and a product with
      that item's id meet in it. */
  lemma FinalTableMembership(cs: seq<Customer>, ps: seq<Product>, envs: seq<Envelope>)
    ensures forall f :: f in FinalTable(cs, ps, envs) <==>
      exists a, b, t ::
        && 0 <= a < |cs| && 0 <= b < |ps| && t in Flatten(envs)
        && cs[a].customerId == t.customerId && ps[b].productId == t.productId
        && f == MergeProduct(MergeCustomer(cs[a], t), ps[b])
  {
    var rows := Flatten(envs);
    var j1 := JoinCustomers(cs, rows);
    forall f | f in FinalTable(cs, ps, envs)
      ensures exists a, b, t ::
        && 0 <= a < |cs| && 0 <= b < |ps| && t in rows
        && cs[a].customerId == t.customerId && ps[b].productId == t.productId
        && f == MergeProduct(MergeCustomer(cs[a], t), ps[b])
    {
      var i, b :| 0 <= i < |j1| && 0 <= b < |ps| && j1[i].productId == ps[b].productId && f == MergeProduct(j1[i], ps[b]);
      assert j1[i] in j1;
      var a, j :| 0 <= a < |cs| && 0 <= j < |rows| && cs[a].customerId == rows[j].customerId && j1[i] == MergeCustomer(cs[a], rows[j]);
      assert rows[j] in rows;
    }
    forall f, a, b, t | 0 <= a < |cs| && 0 <= b < |ps| && t in rows
        && cs[a].customerId == t.customerId && ps[b].productId == t.productId
        && f == MergeProduct(MergeCustomer(cs[a], t), ps[b])
      ensures f in FinalTable(cs, ps, envs)
    {
      var j :| 0 <= j < |rows| && rows[j] == t;
      var x := MergeCustomer(cs[a], t);
      assert x in j1;
      var i :| 0 <= i < |j1| && j1[i] == x;
    }
  }

  /** No unobserved combination: every output tuple names a customers row, a
      products row, and at least one purchase of that product by that
      customer. Unmatched customers and products yield nothing. */
  lemma PatternsObserved(cs: seq<Customer>, ps: seq<Product>, envs: seq<Envelope>)
    ensures var r := GetPatterns(cs, ps, envs);
      forall i :: 0 <= i < |r| ==>
        && Customer(r[i].key.customerId, r[i].key.loyaltyScore) in cs
        && HasProduct(ps, r[i].key.productId, r[i].key.productCategory)
        && ItemCount(envs, r[i].key.customerId, r[i].key.productId) > 0
  {
    var r := GetPatterns(cs, ps, envs);
    forall i | 0 <= i < |r|
      ensures Customer(r[i].key.customerId, r[i].key.loyaltyScore) in cs
      ensures HasProduct(ps, r[i].key.productId, r[i].key.productCategory)
      ensures ItemCount(envs, r[i].key.customerId, r[i].key.productId) > 0
    {
      var k := r[i].key;
      PositiveFactors(CustomerCount(cs, k.customerId, k.loyaltyScore), ProductCount(ps, k.productId, k.productCategory),
                      ItemCount(envs, k.customerId, k.productId));
      CountIfPositive(cs, IsCustomer(k.customerId, k.loyaltyScore));
      CountIfPositive(ps, IsProduct(k.productId, k.productCategory));
      var a :| 0 <= a < |cs| && IsCustomer(k.customerId, k.loyaltyScore)(cs[a]);
      assert cs[a] == Customer(k.customerId, k.loyaltyScore);
      var b :| 0 <= b < |ps| && IsProduct(k.productId, k.productCategory)(ps[b]);
    }
  }

  lemma CustomerCountUnique(cs: seq<Customer>, c: int, l: string)
    requires UniqueKeys(cs, CustomerKey)
    ensures CustomerCount(cs, c, l) == if Customer(c, l) in cs then 1 else 0
  {
    CountIfUniqueKey(cs, CustomerKey, c, IsCustomer(c, l));
    CountIfPositive(cs, IsCustomer(c, l));
    if Customer(c, l) in cs {
      var a :| 0 <= a < |cs| && cs[a] == Customer(c, l);
      assert IsCustomer(c, l)(cs[a]);
    }
  }

  lemma ProductCountUnique(ps: seq<Product>, p: int, cat: string)
    requires UniqueKeys(ps, ProductKey)
    ensures ProductCount(ps, p, cat) == if HasProduct(ps, p, cat) then 1 else 0
  {
    CountIfUniqueKey(ps, ProductKey, p, IsProduct(p, cat));
    CountIfPositive(ps, IsProduct(p, cat));
    if HasProduct(ps, p, cat) {
      var b :| 0 <= b < |ps| && ps[b].productId == p && ps[b].productCategory == cat;
      assert IsProduct(p, cat)(ps[b]);
    }
  }

  lemma ExpectedWithUniqueKeys(cs: seq<Customer>, ps: seq<Product>, envs: seq<Envelope>, k: PatternKey)
    requires UniqueKeys(cs, CustomerKey)
    requires UniqueKeys(ps, ProductKey)
    ensures Expected(cs, ps, envs, k) ==
      if Customer(k.customerId, k.loyaltyScore) in cs && HasProduct(ps, k.productId, k.productCategory)
      then ItemCount(envs, k.customerId, k.productId) else 0
  {
    CustomerCountUnique(cs, k.customerId, k.loyaltyScore);
    ProductCountUnique(ps, k.productId, k.productCategory);
  }

  /** End to end, with `customer_id` unique among customers and `product_id`
      unique among products: the output has a row for (c, l, p, cat) exactly
      when customer (c, l) and a product (p, cat) exist and c bought p, and
      its count is the number of basket items of p over c's envelopes. */
  lemma PatternsWithUniqueKeys(cs: seq<Customer>, ps: seq<Product>, envs: seq<Envelope>)
    requires UniqueKeys(cs, CustomerKey)
    requires UniqueKeys(ps, ProductKey)
    ensures var r := GetPatterns(cs, ps, envs);
      forall i :: 0 <= i < |r| ==> r[i].count == ItemCount(envs, r[i].key.customerId, r[i].key.productId)
    ensures var r := GetPatterns(cs, ps, envs);
      forall k :: HasKey(r, k) <==>
        && Customer(k.customerId, k.loyaltyScore) in cs
        && HasProduct(ps, k.productId, k.productCategory)
        && ItemCount(envs, k.customerId, k.productId) > 0
  {
    var r := GetPatterns(cs, ps, envs);
    forall i | 0 <= i < |r|
      ensures r[i].count == ItemCount(envs, r[i].key.customerId, r[i].key.productId)
    {
      ExpectedWithUniqueKeys(cs, ps, envs, r[i].key);
      PatternsObserved(cs, ps, envs);
    }
    forall k
      ensures HasKey(r, k) <==>
        && Customer(k.customerId, k.loyaltyScore) in cs
        && HasProduct(ps, k.productId, k.productCategory)
        && ItemCount(envs, k.customerId, k.productId) > 0
    {
      ExpectedWithUniqueKeys(cs, ps, envs, k);
    }
  }

  /** A customer all of whose envelopes have empty baskets bought nothing. */
  lemma {:induction false} NoPurchases(envs: seq<Envelope>, c: int, p: int)
    requires forall i :: 0 <= i < |envs| && envs[i].customerId == c ==> envs[i].basket == []
    ensures ItemCount(envs, c, p) == 0
  {
    if envs != [] {
      assert forall i :: 0 <= i < |envs[1..]| ==> envs[1..][i] == envs[i + 1];
      NoPurchases(envs[1..], c, p);
    }
  }

  /** `explode` drops empty baskets: a customer all of whose envelopes have
      empty baskets appears in no output row, whatever the other tables. */
  lemma EmptyBasketsNoPatterns(cs: seq<Customer>, ps: seq<Product>, envs: seq<Envelope>, c: int)
    requires forall i :: 0 <= i < |envs| && envs[i].customerId == c ==> envs[i].basket == []
    ensures var r := GetPatterns(cs, ps, envs);
      forall i :: 0 <= i < |r| ==> r[i].key.customerId != c
  {
    var r := GetPatterns(cs, ps, envs);
    forall i | 0 <= i < |r|
      ensures r[i].key.customerId != c
    {
      var k := r[i].key;
      NoPurchases(envs, c, k.productId);
      PositiveFactors(CustomerCount(cs, k.customerId, k.loyaltyScore), ProductCount(ps, k.productId, k.productCategory),
                      ItemCount(envs, k.customerId, k.productId));
    }
  }

  /** Customer 2's only envelope has an empty basket and there are no other
      envelopes: the output is empty, whatever the customers and products. */
  lemma EmptyBasketScenario(cs: seq<Customer>, ps: seq<Product>, envs: seq<Envelope>, d: string)
    requires envs == [Envelope(2, d, [])]
    ensures GetPatterns(cs, ps, envs) == []
  {
    var r := GetPatterns(cs, ps, envs);
    forall k
      ensures !HasKey(r, k)
    {
      NoPurchases(envs, k.customerId, k.productId);
      PositiveFactors(CustomerCount(cs, k.customerId, k.loyaltyScore), ProductCount(ps, k.productId, k.productCategory),
                      ItemCount(envs, k.customerId, k.productId));
    }
    NoGroups(r);
  }

  /** A grouping that, for one customers row and one products row, is keyed
      and counted as `PatternsWithUniqueKeys` describes, is that one row or
      nothing. */
  lemma OnlyPattern(r: seq<PatternCount>, cs: seq<Customer>, ps: seq<Product>, envs: seq<Envelope>)
    requires |cs| == 1 && |ps| == 1
    requires DistinctKeys(r)
    requires forall i :: 0 <= i < |r| ==> r[i].count == ItemCount(envs, r[i].key.customerId, r[i].key.productId)
    requires forall k :: HasKey(r, k) <==>
      && Customer(k.customerId, k.loyaltyScore) in cs
      && HasProduct(ps, k.productId, k.productCategory)
      && ItemCount(envs, k.customerId, k.productId) > 0
    ensures var n := ItemCount(envs, cs[0].customerId, ps[0].productId);
      r == if n > 0 then [Group(PatternKey(cs[0].customerId, cs[0].loyaltyScore, ps[0].productId, ps[0].productCategory), n)] else []
  {
    var n := ItemCount(envs, cs[0].customerId, ps[0].productId);
    var k0 := PatternKey(cs[0].customerId, cs[0].loyaltyScore, ps[0].productId, ps[0].productCategory);
    forall i | 0 <= i < |r|
      ensures r[i] == Group(k0, n)
    {
      var k := r[i].key;
      assert HasKey(r, k);
      var j :| 0 <= j < |ps| && ps[j].productId == k.productId && ps[j].productCategory == k.productCategory;
    }
    assert HasKey(r, k0) <==> n > 0 by {
      assert HasProduct(ps, ps[0].productId, ps[0].productCategory);
    }
    SingleGroup(r, k0, n);
  }

  /** With one customers row and one products row, the output is a single
      row carrying the purchase count, or nothing when there is no purchase. */
  lemma SingleCustomerSingleProduct(cs: seq<Customer>, ps: seq<Product>, envs: seq<Envelope>)
    requires |cs| == 1 && |ps| == 1
    ensures var n := ItemCount(envs, cs[0].customerId, ps[0].productId);
      GetPatterns(cs, ps, envs)
        == if n > 0 then [Group(PatternKey(cs[0].customerId, cs[0].loyaltyScore, ps[0].productId, ps[0].productCategory), n)] else []
  {
    PatternsWithUniqueKeys(cs, ps, envs);
    OnlyPattern(GetPatterns(cs, ps, envs), cs, ps, envs);
  }

  lemma GoldItems(envs: seq<Envelope>, d: string, price1: real, price2: real, price3: real)
    requires envs == [Envelope(1, d, [BasketItem(10, price1), BasketItem(10, price2), BasketItem(99, price3)])]
    ensures ItemCount(envs, 1, 10) == 2
  {
    var basket := envs[0].basket;
    assert Occurrences(basket, 10) == 2 by {
      var b1, b2 := basket[1..], basket[1..][1..];
      assert b2 == [BasketItem(99, price3)] && b2[1..] == [];
      assert Occurrences(b2, 10) == 0;
      assert b1 == [BasketItem(10, price2)] + b2;
      assert Occurrences(b1, 10) == 1;
    }
    assert envs[1..] == [];
  }

  /** One gold customer buys product 10 twice and the unknown product 99 once,
      on any date, at any prices: the output is the single row
      (1, "gold", 10, "electronics", 2), whatever the product's description. */
  lemma GoldScenario(cs: seq<Customer>, ps: seq<Product>, envs: seq<Envelope>,
                     description: string, d: string, price1: real, price2: real, price3: real)
    requires cs == [Customer(1, "gold")]
    requires ps == [Product(10, description, "electronics")]
    requires envs == [Envelope(1, d, [BasketItem(10, price1), BasketItem(10, price2), BasketItem(99, price3)])]
    ensures GetPatterns(cs, ps, envs) == [Group(PatternKey(1, "gold", 10, "electronics"), 2)]
  {
    GoldItems(envs, d, price1, price2, price3);
    SingleCustomerSingleProduct(cs, ps, envs);
  }
}
