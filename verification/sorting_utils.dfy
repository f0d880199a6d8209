/** `sortProductsByPrice` of `utils/sortingUtils`: a stable sort of a copy of the
    product list, keyed by the derived price, ascending or descending. */
module SortingUtils {
  import opened Types
  import MathUtils
  import StableSort

  /** The `order` argument: "asc" or "desc". */
  datatype Order = Asc | Desc

  /** The derived price of a product, the sort key. */
  function Price(p: Product): nat {
    MathUtils.CalculatePrice(p.title, p.description)
  }

  /** The comparator handed to `sort`: negative when a goes first, positive when b
      goes first, zero when they tie. */
  function Compare(order: Order, a: Product, b: Product): (c: int)
    ensures c == 0 <==> Price(a) == Price(b)
    ensures order == Asc ==> (c < 0 <==> Price(a) < Price(b))
    ensures order == Desc ==> (c < 0 <==> Price(a) > Price(b))
  {
    if order == Asc then Price(a) - Price(b) else Price(b) - Price(a)
  }

  /** The sort key of "asc": the price itself. */
  function PriceKey(p: Product): int {
    Price(p)
  }

  /** The sort key of "desc": the negated price. */
  function NegatedPriceKey(p: Product): int {
    -(Price(p) as int)
  }

  /** A key whose differences are the comparator: the price for "asc", the negated
      price for "desc". */
  function SortKey(order: Order): (key: Product -> int)
    ensures forall a, b :: key(a) - key(b) == Compare(order, a, b)
  {
    if order == Asc then PriceKey else NegatedPriceKey
  }

  /** `sortProductsByPrice(products, order = "asc")`: the products rearranged so that
      the comparator never puts a later product strictly before an earlier one, that
      is, price never decreases ("asc") or never increases ("desc"). */
  function SortProductsByPrice(products: seq<Product>, order: Order := Asc): (r: seq<Product>)
    ensures |r| == |products| && multiset(r) == multiset(products)
    ensures forall i, j :: 0 <= i < j < |r| ==> Compare(order, r[i], r[j]) <= 0
    ensures order == Asc ==> forall i, j :: 0 <= i < j < |r| ==> Price(r[i]) <= Price(r[j])
    ensures order == Desc ==> forall i, j :: 0 <= i < j < |r| ==> Price(r[i]) >= Price(r[j])
  {
    StableSort.SortPermutesAndOrders(products, SortKey(order));
    StableSort.Sort(products, SortKey(order))
  }

  /** Leaving out the order argument sorts by ascending price. */
  lemma DefaultOrderIsAscending(products: seq<Product>)
    ensures SortProductsByPrice(products) == SortProductsByPrice(products, Asc)
    ensures forall i, j :: 0 <= i < j < |products| ==>
              Price(SortProductsByPrice(products)[i]) <= Price(SortProductsByPrice(products)[j])
  {
  }

  /** Sorting on a fresh copy, `[...products].sort(...)`: the result is a new array
      and the input array is left as it was (the method may not write to it). */
  method SortedCopy(products: array<Product>, order: Order := Asc) returns (sorted: array<Product>)
    ensures fresh(sorted)
    ensures sorted[..] == SortProductsByPrice(products[..], order)
    ensures products[..] == old(products[..])
  {
    var s := SortProductsByPrice(products[..], order);
    sorted := new Product[|s|](i requires 0 <= i < |s| => s[i]);
  }

  /** The products of s whose price is `price`, in their order in s. */
  function WithPrice(s: seq<Product>, price: int): seq<Product> {
    StableSort.WithKey(s, PriceKey, price)
  }

  /** A price class is a key class of either order; for "desc" it is the class of the
      negated price. */
  lemma {:induction false} WithPriceIsKeyClass(s: seq<Product>, order: Order, price: int)
    ensures WithPrice(s, price) == StableSort.WithKey(s, SortKey(order), if order == Asc then price else -price)
    decreases |s|
  {
    if s != [] {
      WithPriceIsKeyClass(s[1..], order, price);
    }
  }

  /** Stability: the products of any one price keep their input order, in both
      directions (so "desc" is not the reversal of "asc" when prices tie). */
  lemma SortProductsByPriceIsStable(products: seq<Product>, order: Order, price: int)
    ensures WithPrice(SortProductsByPrice(products, order), price) == WithPrice(products, price)
  {
    var k := if order == Asc then price else -price;
    WithPriceIsKeyClass(products, order, price);
    WithPriceIsKeyClass(SortProductsByPrice(products, order), order, price);
    StableSort.SortIsStable(products, SortKey(order), k);
  }

  /** A list already in order is returned unchanged; hence sorting twice with the
      same order is the same as sorting once. */
  lemma SortProductsByPriceIdempotent(products: seq<Product>, order: Order)
    ensures (forall i, j :: 0 <= i < j < |products| ==> Compare(order, products[i], products[j]) <= 0)
              ==> SortProductsByPrice(products, order) == products
    ensures SortProductsByPrice(SortProductsByPrice(products, order), order) == SortProductsByPrice(products, order)
  {
    var key := SortKey(order);
    if forall i, j :: 0 <= i < j < |products| ==> Compare(order, products[i], products[j]) <= 0 {
      StableSort.SortOfSorted(products, key);
    }
    StableSort.SortOfSorted(SortProductsByPrice(products, order), key);
  }

  /** Reference characterization: the result is the ONLY arrangement that is in
      order and keeps every price class in input order. */
  lemma SortProductsByPriceIsUnique(products: seq<Product>, r: seq<Product>, order: Order)
    requires forall i, j :: 0 <= i < j < |r| ==> Compare(order, r[i], r[j]) <= 0
    requires forall price :: WithPrice(r, price) == WithPrice(products, price)
    ensures r == SortProductsByPrice(products, order)
  {
    var key := SortKey(order);
    InOrderIsKeySorted(r, order);
    SameKeyClasses(products, r, order);
    StableSort.SortIsUnique(products, r, key);
  }

  /** Being in comparator order is being sorted by the key. */
  lemma InOrderIsKeySorted(r: seq<Product>, order: Order)
    requires forall i, j :: 0 <= i < j < |r| ==> Compare(order, r[i], r[j]) <= 0
    ensures StableSort.SortedBy(r, SortKey(order))
  {
    var key := SortKey(order);
    forall i, j | 0 <= i < j < |r|
      ensures key(r[i]) <= key(r[j])
    {
      assert key(r[i]) - key(r[j]) == Compare(order, r[i], r[j]);
    }
  }

  /** Equal price classes are equal key classes. */
  lemma SameKeyClasses(products: seq<Product>, r: seq<Product>, order: Order)
    requires forall price :: WithPrice(r, price) == WithPrice(products, price)
    ensures forall k :: StableSort.WithKey(r, SortKey(order), k) == StableSort.WithKey(products, SortKey(order), k)
  {
    var key := SortKey(order);
    forall k
      ensures StableSort.WithKey(r, key, k) == StableSort.WithKey(products, key, k)
    {
      var price := if order == Asc then k else -k;
      WithPriceIsKeyClass(r, order, price);
      WithPriceIsKeyClass(products, order, price);
    }
  }
}
