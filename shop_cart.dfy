/**
 * The shop dashboard: the module-level cart, changed in place by add, remove and quantity updates,
 * the badge that shows the number of items, and the category and text filters over the product
 * catalogue. Prices and images are not modelled.
 */
module ShopCart {
  import opened Text

  datatype Option<T> = None | Some(value: T)

  datatype Product = Product(id: int, name: string, category: string)

  /** The catalogue, in display order. */
  const Products: seq<Product> := [
    Product(1, "Wireless Bluetooth Headphones", "electronics"),
    Product(2, "Smart Watch Series 5", "electronics"),
    Product(3, "Cotton T-Shirt", "clothing"),
    Product(4, "Modern Sofa", "home"),
    Product(5, "Yoga Mat", "sports"),
    Product(6, "Coffee Maker", "home"),
    Product(7, "Running Shoes", "sports"),
    Product(8, "Wireless Mouse", "electronics")
  ]

  /** A cart line `{id, name, quantity}`. */
  datatype Item = Item(id: int, name: string, quantity: int)

  /** `products.find(p => p.id === id)`. */
  function FindProduct(ps: seq<Product>, id: int): (r: Option<Product>)
    ensures r.Some? ==> r.value in ps && r.value.id == id
    ensures r.None? ==> forall k :: 0 <= k < |ps| ==> ps[k].id != id
  {
    if ps == [] then None
    else if ps[0].id == id then Some(ps[0])
    else FindProduct(ps[1..], id)
  }

  /** The index of the first cart line with that id, or |items| if none. */
  function FindItem(items: seq<Item>, id: int): (k: nat)
    ensures k <= |items|
    ensures k < |items| ==> items[k].id == id
    ensures forall j :: 0 <= j < k ==> items[j].id != id
  {
    if items == [] then 0
    else if items[0].id == id then 0
    else 1 + FindItem(items[1..], id)
  }

  /** `cart.filter(item => item.id !== id)`. */
  function RemoveItem(items: seq<Item>, id: int): (r: seq<Item>)
    ensures |r| <= |items|
    ensures forall x :: x in r <==> x in items && x.id != id
  {
    if items == [] then []
    else (if items[0].id != id then [items[0]] else []) + RemoveItem(items[1..], id)
  }

  /**
   * `cart.reduce((sum, item) => sum + item.quantity, 0)`: 0 for the empty cart, never negative when no
   * quantity is, and at least one unit per line when every line holds one.
   */
  function Total(items: seq<Item>): (r: int)
    ensures items == [] ==> r == 0
    ensures (forall k :: 0 <= k < |items| ==> items[k].quantity >= 0) ==> r >= 0
    ensures (forall k :: 0 <= k < |items| ==> items[k].quantity >= 1) ==> r >= |items|
  {
    if items == [] then 0 else items[0].quantity + Total(items[1..])
  }

  /** The quantity the cart holds under an id: the first line with it, or 0. */
  function QuantityOf(items: seq<Item>, id: int): int {
    var k := FindItem(items, id);
    if k < |items| then items[k].quantity else 0
  }

  /** No two lines share an id and every line holds at least one unit. */
  ghost predicate Wellformed(items: seq<Item>) {
    (forall i, j :: 0 <= i < j < |items| ==> items[i].id != items[j].id)
    && forall k :: 0 <= k < |items| ==> items[k].quantity >= 1
  }

  /** Setting one line's quantity moves the total by the difference. */
  lemma {:induction false} TotalSet(items: seq<Item>, k: nat, q: int)
    requires k < |items|
    ensures Total(items[k := items[k].(quantity := q)]) == Total(items) - items[k].quantity + q
  {
    if k > 0 {
      TotalSet(items[1..], k - 1, q);
      assert items[k := items[k].(quantity := q)][1..] == items[1..][k - 1 := items[k].(quantity := q)];
    }
  }

  lemma {:induction false} TotalAppend(items: seq<Item>, x: Item)
    ensures Total(items + [x]) == Total(items) + x.quantity
  {
    if items != [] {
      assert (items + [x])[1..] == items[1..] + [x];
      TotalAppend(items[1..], x);
    }
  }

  /** The units held under an id over all lines that carry it. */
  function Held(items: seq<Item>, id: int): int {
    if items == [] then 0 else (if items[0].id == id then items[0].quantity else 0) + Held(items[1..], id)
  }

  /** Removing an id takes away every unit held under it. */
  lemma {:induction false} TotalRemove(items: seq<Item>, id: int)
    ensures Total(RemoveItem(items, id)) == Total(items) - Held(items, id)
  {
    if items != [] {
      var r := RemoveItem(items[1..], id);
      TotalRemove(items[1..], id);
      if items[0].id == id {
        assert RemoveItem(items, id) == r;
      } else {
        assert RemoveItem(items, id) == [items[0]] + r;
        assert ([items[0]] + r)[1..] == r;
      }
    }
  }

  /** With unique ids, what an id holds is the quantity of its one line. */
  lemma {:induction false} HeldUnique(items: seq<Item>, id: int)
    requires Wellformed(items)
    ensures Held(items, id) == QuantityOf(items, id)
  {
    if items != [] {
      var rest := items[1..];
      assert Wellformed(rest);
      if items[0].id == id {
        forall k | 0 <= k < |rest| ensures rest[k].id != id {
          assert items[k + 1].id != items[0].id;
        }
        RemoveAbsent(rest, id);
      } else {
        HeldUnique(rest, id);
        assert FindItem(items, id) == 1 + FindItem(rest, id);
      }
    }
  }

  /** Raising or setting one line's quantity to a positive value keeps the cart well formed. */
  lemma WellformedSet(items: seq<Item>, k: nat, q: int)
    requires Wellformed(items) && k < |items| && q >= 1
    ensures Wellformed(items[k := items[k].(quantity := q)])
  {
  }

  /** A new line under an id not yet in the cart keeps it well formed. */
  lemma WellformedAppend(items: seq<Item>, x: Item)
    requires Wellformed(items) && FindItem(items, x.id) == |items| && x.quantity >= 1
    ensures Wellformed(items + [x])
  {
  }

  lemma {:induction false} RemoveAbsent(items: seq<Item>, id: int)
    requires forall k :: 0 <= k < |items| ==> items[k].id != id
    ensures RemoveItem(items, id) == items && Held(items, id) == 0
  {
    if items != [] {
      RemoveAbsent(items[1..], id);
    }
  }

  /**
   * The badge: shown with the total when it is positive, hidden (`None`) otherwise; in a well-formed
   * cart it is hidden exactly when the cart is empty.
   */
  function Badge(items: seq<Item>): (r: Option<int>)
    ensures r.None? <==> Total(items) <= 0
    ensures r.Some? ==> r.value == Total(items) && r.value >= 1
    ensures Wellformed(items) ==> (r.None? <==> items == [])
  {
    var total := Total(items);
    if total > 0 then Some(total) else None
  }

  lemma {:induction false} RemoveWellformed(items: seq<Item>, id: int)
    requires Wellformed(items)
    ensures Wellformed(RemoveItem(items, id))
  {
    if items != [] {
      assert Wellformed(items[1..]);
      RemoveWellformed(items[1..], id);
      var rest := RemoveItem(items[1..], id);
      forall x | x in rest ensures x.id != items[0].id {
        var k :| 0 <= k < |items[1..]| && items[1..][k] == x;
        assert items[k + 1] == x;
      }
    }
  }

  class Cart {
    var items: seq<Item>
    /** The product catalogue the page was built with. */
    const catalogue: seq<Product>

    /** The cart as loaded from storage (`[]` when nothing was stored), over the shop's catalogue. */
    constructor(stored: seq<Item>)
      ensures items == stored && catalogue == Products
    {
      items := stored;
      catalogue := Products;
    }

    /**
     * An unknown product changes nothing. A product already in the cart gets one more unit;
     * otherwise it is appended with quantity 1.
     */
    method AddToCart(productId: int)
      modifies this
      ensures old(Wellformed(items)) ==> Wellformed(items)
      ensures FindProduct(catalogue, productId).None? ==> items == old(items)
      ensures FindProduct(catalogue, productId).Some? && FindItem(old(items), productId) < |old(items)| ==>
        var k := FindItem(old(items), productId);
        items == old(items)[k := old(items)[k].(quantity := old(items)[k].quantity + 1)]
      ensures FindProduct(catalogue, productId).Some? && FindItem(old(items), productId) == |old(items)| ==>
        items == old(items) + [Item(productId, FindProduct(catalogue, productId).value.name, 1)]
      ensures Total(items) == old(Total(items)) + (if FindProduct(catalogue, productId).Some? then 1 else 0)
    {
      var product := FindProduct(catalogue, productId);
      if product.None? {
        return;
      }
      var k := FindItem(items, productId);
      if k < |items| {
        TotalSet(items, k, items[k].quantity + 1);
        if Wellformed(items) {
          WellformedSet(items, k, items[k].quantity + 1);
        }
        items := items[k := items[k].(quantity := items[k].quantity + 1)];
      } else {
        var line := Item(product.value.id, product.value.name, 1);
        TotalAppend(items, line);
        if Wellformed(items) {
          WellformedAppend(items, line);
        }
        items := items + [line];
      }
    }

    /**
     * Every line with that id goes and all others stay, in order; the total drops by the units held
     * under the id, which in a well-formed cart is the quantity of its one line.
     */
    method RemoveFromCart(productId: int)
      modifies this
      ensures old(Wellformed(items)) ==> Wellformed(items)
      ensures items == RemoveItem(old(items), productId)
      ensures Total(items) == old(Total(items)) - old(Held(items, productId))
      ensures old(Wellformed(items)) ==> Total(items) == old(Total(items)) - old(QuantityOf(items, productId))
    {
      if Wellformed(items) {
        RemoveWellformed(items, productId);
        HeldUnique(items, productId);
      }
      TotalRemove(items, productId);
      items := RemoveItem(items, productId);
    }

    /**
     * A quantity of 0 or less removes the line; a positive one replaces the line's quantity, and
     * an id not in the cart changes nothing.
     */
    method UpdateCartQuantity(productId: int, newQuantity: int)
      modifies this
      ensures old(Wellformed(items)) ==> Wellformed(items)
      ensures newQuantity <= 0 ==> items == RemoveItem(old(items), productId)
      ensures newQuantity <= 0 ==> Total(items) == old(Total(items)) - old(Held(items, productId))
      ensures newQuantity > 0 && FindItem(old(items), productId) < |old(items)| ==>
        var k := FindItem(old(items), productId);
        items == old(items)[k := old(items)[k].(quantity := newQuantity)]
      ensures newQuantity > 0 && FindItem(old(items), productId) == |old(items)| ==> items == old(items)
      ensures newQuantity > 0 ==>
        Total(items) == old(Total(items)) - old(QuantityOf(items, productId))
        + (if FindItem(old(items), productId) < |old(items)| then newQuantity else 0)
    {
      if newQuantity <= 0 {
        RemoveFromCart(productId);
        return;
      }
      var k := FindItem(items, productId);
      if k < |items| {
        TotalSet(items, k, newQuantity);
        if Wellformed(items) {
          WellformedSet(items, k, newQuantity);
        }
        items := items[k := items[k].(quantity := newQuantity)];
      }
    }
  }

  /** `category === 'all' ? products : products.filter(p => p.category === category)`. */
  function ByCategory(ps: seq<Product>, category: string): (r: seq<Product>)
    ensures category == "all" ==> r == ps
    ensures category != "all" ==> |r| <= |ps| && forall p :: p in r <==> p in ps && p.category == category
  {
    if category == "all" then ps else SameCategory(ps, category)
  }

  function SameCategory(ps: seq<Product>, category: string): (r: seq<Product>)
    ensures |r| <= |ps|
    ensures forall p :: p in r <==> p in ps && p.category == category
  {
    if ps == [] then []
    else (if ps[0].category == category then [ps[0]] else []) + SameCategory(ps[1..], category)
  }

  predicate Matches(p: Product, query: string) {
    Contains(Lower(p.name), Lower(query)) || Contains(Lower(p.category), Lower(query))
  }

  /** The products whose lower-cased name or category contains the lower-cased query, in order. */
  function Search(ps: seq<Product>, query: string): (r: seq<Product>)
    ensures |r| <= |ps|
    ensures forall p :: p in r <==> p in ps && Matches(p, query)
  {
    if ps == [] then []
    else (if Matches(ps[0], query) then [ps[0]] else []) + Search(ps[1..], query)
  }

  /** The empty query matches every product. */
  lemma {:induction false} SearchEmpty(ps: seq<Product>)
    ensures Search(ps, "") == ps
  {
    if ps != [] {
      assert At(Lower(ps[0].name), Lower(""), 0);
      SearchEmpty(ps[1..]);
    }
  }
}
