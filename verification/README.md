# Customer purchase patterns: a Dafny model

The pipeline in `python-assignment/solution/solution_start.py` reads three
tables and returns one:

- **customers**: `customer_id`, `loyalty_score`.
- **products**: `product_id`, `product_description`, `product_category`.
- **transaction envelopes**: `customer_id`, `date_of_purchase` and a `basket`
  of items, each with a `product_id` and a `price`.

`explode_json_date` turns each basket item into its own row. `join_dfs` then
inner-joins customers with these rows on `customer_id`, and that result with
products on `product_id`. `get_patterns` selects
(customer_id, loyalty_score, product_id, product_category) and counts the rows
for each distinct tuple.

The model has four modules:

- `Relational` is the generic inner equi-join (`join_dfs`) and the row
  counting used to reason about it.
- `Aggregate` is the generic `groupBy(...).count()`. It has one group per
  distinct key observed, with its number of rows.
- `Transactions` holds the envelopes and their flattening (`explode_json_date`).
- `Patterns` covers the three table schemas, the two joins, the projection, and
  `get_patterns` with its end-to-end properties.

Tables are sequences of immutable rows. Spark gives no row order. The
end-to-end properties and the grouping are therefore stated through counts,
multisets or membership, which do not depend on order.

The model's join is a nested loop, and its flattening goes envelope by
envelope. A few lemmas about these steps are exact sequence equalities that
hold for this one order: `Relational.JoinAppend`,
`Relational.JoinDropsUnmatchedLeft`, `Relational.JoinDropsUnmatchedRight` and
`Transactions.FlattenSkipsEmpty`. Spark does not promise that order. What it
does promise is the multiset form, and each of these equalities implies it.

The central theorem is `Patterns.GetPatterns`. It needs no uniqueness
assumption. The output row for a tuple (c, l, p, cat) exists exactly when its
count is positive, and the count is:

- the number of customers rows (c, l),
- times the number of products rows with id p and category cat,
- times the number of basket items of p across the envelopes of customer c.

`Patterns.PatternsWithUniqueKeys` specialises this to the intended case, where
ids are unique in their reference tables. There the count is simply the number
of times c bought p.

## Model

| member | source | states |
|---|---|---|
| `Transactions.Explode` | python-assignment/solution/solution_start.py:77-78 | one row per basket element, in basket order; row i carries the envelope's customer_id and date_of_purchase and element i's product_id and price |
| `Transactions.Flatten` | python-assignment/solution/solution_start.py:75-80 | the flattened table has exactly as many rows as there are basket items over all envelopes |
| `Transactions.FlattenMembership` | python-assignment/solution/solution_start.py:77-78 | a row is in the flattened table iff it is some basket element of some envelope, combined with that envelope's customer_id and date (provenance, both directions) |
| `Transactions.FlattenSkipsEmpty` | python-assignment/solution/solution_start.py:77 | `explode`, not `explode_outer`: an envelope with an empty basket yields no row, so removing it leaves the flattened table unchanged |
| `Transactions.FlattenCount` | python-assignment/solution/solution_start.py:77-78 | the flattened rows for (customer c, product p) number exactly the basket items of p over c's envelopes |
| `Relational.Join` | python-assignment/solution/solution_start.py:84-88 | inner equi-join: an output row exists iff some left row and some right row have equal keys and it is their merge (both directions); unmatched rows on either side vanish |
| `Relational.JoinAppend` | python-assignment/solution/solution_start.py:86 | the join distributes over concatenation of the left table |
| `Relational.JoinCount` | python-assignment/solution/solution_start.py:84-88 | counting join output through a predicate that splits into a left part and a right part gives the product of the two side counts |
| `Relational.JoinKeyMultiplicity` | python-assignment/solution/solution_start.py:86 | a key occurring k times on the left and m times on the right occurs k*m times in the output; the join does not de-duplicate |
| `Relational.JoinDropsUnmatchedLeft` | python-assignment/solution/solution_start.py:86 | inner mode: a left row whose key matches no right row contributes nothing, so removing it leaves the output unchanged |
| `Relational.JoinDropsUnmatchedRight` | python-assignment/solution/solution_start.py:86 | inner mode: a right row whose key matches no left row contributes nothing, so removing it leaves the output unchanged |
| `Aggregate.Bump` | python-assignment/solution/solution_start.py:106-107 | recording one more row with key x keeps keys distinct, adds x to the observed keys, raises the count of x by one and leaves every other count alone |
| `Aggregate.GroupCount` | python-assignment/solution/solution_start.py:105-107 | keys are distinct; every count is at least 1; a key is present iff it occurs in the input; its count is its multiplicity in the input; the counts add up to the number of input rows |
| `Aggregate.GroupCountOrderIndependent` | python-assignment/solution/solution_start.py:105-107 | the grouping depends only on the multiset of input rows: any reordering of the input gives a permutation of the same groups with the same counts |
| `Patterns.Project` | python-assignment/solution/solution_start.py:105 | the select keeps one row per fact, holding exactly that fact's four grouping columns |
| `Patterns.ProjectCount` | python-assignment/solution/solution_start.py:105 | the multiplicity of a grouping tuple after the select equals the number of facts that carry it |
| `Patterns.JoinCustomers` | python-assignment/solution/solution_start.py:101 | the rows for customer (c, l) and product p number the customers rows (c, l) times the flattened rows of customer c for product p |
| `Patterns.JoinProducts` | python-assignment/solution/solution_start.py:102 | the rows with grouping tuple (c, l, p, cat) number the input rows for (c, l, p) times the products rows with id p and category cat |
| `Patterns.FinalTable` | python-assignment/solution/solution_start.py:98-102 | the rows of the final joined table with grouping tuple (c, l, p, cat) number customers(c,l) * products(p,cat) * items(c,p), a count stated on the three inputs alone |
| `Patterns.PatternMultiplicity` | python-assignment/solution/solution_start.py:98-105 | the final joined table has customers(c,l) * products(p,cat) * items(c,p) rows with grouping tuple (c,l,p,cat) |
| `Patterns.GetPatterns` | python-assignment/solution/solution_start.py:93-109 | one row per distinct tuple; every count is at least 1; each count equals customers(c,l) * products(p,cat) * items(c,p); a tuple is present iff that product is positive |
| `Patterns.PatternsTotal` | python-assignment/solution/solution_start.py:101-107 | the output counts add up to the number of rows of the final joined table |
| `Patterns.FinalTableMembership` | python-assignment/solution/solution_start.py:98-102 | a final row exists iff a customers row, a flattened transaction row with the same customer_id and a products row with the same product_id meet in it |
| `Patterns.PatternsObserved` | python-assignment/solution/solution_start.py:101-107 | every output tuple names an existing customers row, an existing products row and at least one purchase; unobserved combinations never appear |
| `Patterns.PatternsWithUniqueKeys` | python-assignment/solution/solution_start.py:96-107 | with unique ids, a tuple is present iff the customer and product exist and the customer bought the product, and its count is the number of such basket items |
| `Patterns.SingleCustomerSingleProduct` | python-assignment/solution/solution_start.py:96-107 | with one customers row and one products row, the output is exactly one row carrying the purchase count, or empty when there is no purchase |
| `Patterns.EmptyBasketsNoPatterns` | python-assignment/solution/solution_start.py:77-107 | for any customers, products and envelopes: a customer all of whose envelopes have empty baskets appears in no output row |
| `Patterns.EmptyBasketScenario` | python-assignment/solution/solution_start.py:77-107 | when the only envelope is customer 2's with an empty basket (any date), the output is empty, whatever the customers and products tables |
| `Patterns.GoldScenario` | python-assignment/solution/solution_start.py:93-109 | a gold customer buying product 10 twice and an unknown product 99 once, on any date, at any prices, with any product description, produces exactly the row (1, gold, 10, electronics, 2) |

## Left out

- `get_params` (lines 7-13) is not modelled. It is command-line parsing; the model takes the three tables as arguments.
- `read_csv`, `read_json` and `write_csv` (lines 17-70) are not modelled. They are file I/O with Spark schema inference, logging and re-raise; the model starts from parsed rows and returns the result table.
- `main` and the `logging` calls (lines 113-136) are not modelled. They are entry-point plumbing and side effects.
- The Spark session is not modelled. It is an implicit global of the source.
- Partitioning and physical row order are not modelled. Spark guarantees neither. The end-to-end and grouping properties are stated up to order (counts, multisets, membership). The model's nested-loop join and envelope-by-envelope flattening give one admissible order. The four sequence-equality lemmas named above hold for that order only, and their multiset consequences hold for any order.
- SQL nulls, missing columns and inferred column types are not modelled. Ids are `int`, loyalty_score, category, description and date are strings, and every row has every field.
- Columns beyond those named above are not modelled. An extra column whose name differs from customer_id, product_id, loyalty_score and product_category is carried through the joins and dropped by the select, so it does not affect the output. An extra column that reuses one of those names is a different matter: for example, a `product_id` column in customers makes the join at line 102 or the select at line 105 ambiguous, and Spark raises an error there. The model has no such columns and does not model that failure.
- The price is a `real` that is carried through but never interpreted, as in the source.
- The `join_type` parameter of `join_dfs` is modelled only for its default, `"inner"`, the only value the pipeline passes.
- Idempotence (the same inputs give the same output) has no lemma of its own. `Patterns.GetPatterns` is a pure function, so it holds by construction.
- The column order of Spark's join output is modelled as Spark produces it (key first, then the left columns, then the right columns). No property depends on it.
