/** The `products` table seen by the catalogue handlers. The read-only
    handlers are functions of the table; `Shop.Store` applies the
    changing ones to its own table through `Updated` and `Deleted`. */
module Catalog {
  import opened Records
  import opened Query
  import opened Like

  /** `ProductDB.id == id` */
  function HasId(id: int): Product -> bool
  {
    (p: Product) => p.id == id
  }

  /** The rows a delete by primary key leaves behind. */
  function OtherThan(id: int): Product -> bool
  {
    (p: Product) => p.id != id
  }

  /** `ProductDB.name.ilike(f"%{q}%")` */
  function NameLike(q: string): Product -> bool
  {
    (p: Product) => LikeMatch(p.name, Pattern(q))
  }

  /** `product.name = name; product.price = price` */
  function SetNameAndPrice(name: string, price: Price): Product -> Product
  {
    (p: Product) => p.(name := name, price := price)
  }

  /** `get_products`: the whole table, in storage order, unpaged. */
  function GetProducts(products: seq<Product>): (r: seq<Product>)
    ensures r == products
  {
    products
  }

  /** `get_product`: the product with that id, or a 404. */
  function GetProduct(products: seq<Product>, id: int): (r: Result<Product>)
    ensures r.Ok? <==> exists p :: p in products && p.id == id
    ensures r.Ok? ==> r.value in products && r.value.id == id
    ensures r.Err? ==> r.error == ProductNotFound
  {
    match First(products, HasId(id))
    case None => Err(ProductNotFound)
    case Some(p) => Ok(p)
  }

  /** `search_products`: every product whose name matches the pattern
      `%q%`, in storage order. */
  function SearchProducts(products: seq<Product>, q: string): (r: seq<Product>)
    ensures forall p :: p in r <==> p in products && LikeMatch(p.name, Pattern(q))
  {
    Where(products, NameLike(q))
  }

  /** The table after `update_product` has set the name and price of the
      product with that id. */
  function Updated(products: seq<Product>, id: int, name: string, price: Price): (r: seq<Product>)
    ensures |r| == |products|
    ensures forall i :: 0 <= i < |products| ==>
              && r[i].id == products[i].id
              && (products[i].id == id ==> r[i].name == name && r[i].price == price)
              && (products[i].id != id ==> r[i] == products[i])
  {
    Rewrite(products, HasId(id), SetNameAndPrice(name, price))
  }

  /** The table after `delete_product` has removed the product with that id. */
  function Deleted(products: seq<Product>, id: int): (r: seq<Product>)
    ensures forall p :: p in r <==> p in products && p.id != id
  {
    Where(products, OtherThan(id))
  }

  /** A product appended with a new id is found by its id, and every other
      lookup answers as before. */
  lemma AddThenGet(products: seq<Product>, p: Product)
    requires forall q :: q in products ==> q.id != p.id
    ensures GetProduct(products + [p], p.id) == Ok(p)
    ensures forall id :: id != p.id ==> GetProduct(products + [p], id) == GetProduct(products, id)
  {
    FirstAppend(products, [p], HasId(p.id));
    forall id | id != p.id
      ensures GetProduct(products + [p], id) == GetProduct(products, id)
    {
      FirstAppend(products, [p], HasId(id));
    }
  }

  /** After an update the id finds the new name and price, and every other
      id finds what it found before. */
  lemma UpdateThenGet(products: seq<Product>, id: int, name: string, price: Price)
    requires GetProduct(products, id).Ok?
    ensures GetProduct(Updated(products, id, name, price), id) == Ok(Product(id, name, price))
    ensures forall j :: j != id ==>
              GetProduct(Updated(products, id, name, price), j) == GetProduct(products, j)
  {
    UpdateFindsNew(products, id, name, price);
    forall j | j != id
      ensures GetProduct(Updated(products, id, name, price), j) == GetProduct(products, j)
    {
      WhereRewrite(products, HasId(id), SetNameAndPrice(name, price), HasId(j));
    }
  }

  lemma UpdateFindsNew(products: seq<Product>, id: int, name: string, price: Price)
    requires GetProduct(products, id).Ok?
    ensures GetProduct(Updated(products, id, name, price), id) == Ok(Product(id, name, price))
  {
    var r := Updated(products, id, name, price);
    var k :| 0 <= k < |products| && products[k] == GetProduct(products, id).value;
    assert r[k] in r && r[k].id == id;
    var found := GetProduct(r, id).value;
    var i :| 0 <= i < |r| && r[i] == found;
    assert products[i].id == id;
  }

  /** An update keeps every id, so the ids stay distinct. */
  lemma UpdateKeepsIds(products: seq<Product>, id: int, name: string, price: Price)
    requires Distinct(products, ProductId)
    ensures Distinct(Updated(products, id, name, price), ProductId)
    ensures forall p :: p in Updated(products, id, name, price) ==> exists q :: q in products && q.id == p.id
  {
    var r := Updated(products, id, name, price);
    forall i, j | 0 <= i < j < |r| ensures ProductId(r[i]) != ProductId(r[j]) {
      assert ProductId(products[i]) != ProductId(products[j]);
    }
    forall p | p in r ensures exists q :: q in products && q.id == p.id {
      var i :| 0 <= i < |r| && r[i] == p;
      assert products[i] in products;
    }
  }

  /** After a delete the id is not found, and every other id finds what it
      found before. */
  lemma DeleteThenGet(products: seq<Product>, id: int)
    ensures GetProduct(Deleted(products, id), id) == Err(ProductNotFound)
    ensures forall j :: j != id ==> GetProduct(Deleted(products, id), j) == GetProduct(products, j)
  {
    forall j | j != id
      ensures GetProduct(Deleted(products, id), j) == GetProduct(products, j)
    {
      WhereNarrowed(products, OtherThan(id), HasId(j));
    }
  }

  /** With distinct ids, a delete removes exactly the one row with that id
      and keeps the others in order. */
  lemma DeleteRemovesOne(products: seq<Product>, id: int, k: int)
    requires Distinct(products, ProductId)
    requires 0 <= k < |products| && products[k].id == id
    ensures Deleted(products, id) == products[..k] + products[k + 1..]
  {
    forall i | 0 <= i < |products| && i != k ensures OtherThan(id)(products[i]) {
      if i < k {
        assert ProductId(products[i]) != ProductId(products[k]);
      } else {
        assert ProductId(products[k]) != ProductId(products[i]);
      }
    }
    WhereDropsIndex(products, OtherThan(id), k);
  }

  /** A query with no wildcards finds the products whose name contains it,
      ignoring ASCII case. */
  lemma SearchBySubstring(products: seq<Product>, q: string)
    requires NoWildcards(q)
    ensures forall p :: p in SearchProducts(products, q) <==> p in products && ContainsIgnoringCase(p.name, q)
  {
    forall p | p in products {
      SearchIsSubstring(p.name, q);
    }
  }

  /** The query `%` is not escaped, so it returns the whole table. */
  lemma PercentSearchListsAll(products: seq<Product>)
    ensures SearchProducts(products, "%") == products
  {
    forall p | p in products ensures NameLike("%")(p) {
      PercentQueryMatchesAll(p.name);
    }
    WhereAll(products, NameLike("%"));
  }
}
