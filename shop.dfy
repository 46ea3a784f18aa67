/** The store behind the HTTP handlers: the three tables and, for each,
    the next primary key the database will hand out. Each handler that
    writes is a method that reads, checks and writes the tables in one
    step; the handlers that only read are the functions of `Accounts`,
    `Catalog` and `Basket` applied to these tables, and `GetCart` below.
    A protected handler first resolves the caller with `CurrentUser` and
    fails with its 401 before looking at anything else. */
module Shop {
  import opened Records
  import opened Query
  import opened Tokens
  import opened Accounts
  import opened Catalog
  import opened Basket

  const ProductRemoved := "Produto removido"
  const ItemRemoved := "Item removido do carrinho"
  const PurchaseCompleted := "Compra finalizada com sucesso!"

  function UserIds(users: seq<User>): set<int>
  {
    set u | u in users :: u.id
  }

  /** `get_cart`: the caller's items, and no one else's. */
  function GetCart(users: seq<User>, cart: seq<CartItem>, decoded: Option<Claims>): (r: Result<seq<CartItem>>)
    ensures CurrentUser(users, decoded).Err? ==> r == Err(CurrentUser(users, decoded).error)
    ensures CurrentUser(users, decoded).Ok? ==>
              r.Ok? && forall c :: c in r.value <==> c in cart && c.userId == CurrentUser(users, decoded).value.id
  {
    match CurrentUser(users, decoded)
    case Err(e) => Err(e)
    case Ok(user) => Ok(CartOf(cart, user.id))
  }

  class Store {
    var users: seq<User>
    var products: seq<Product>
    var cart: seq<CartItem>
    var nextUserId: int
    var nextProductId: int
    var nextItemId: int

    /** Primary keys are positive, below the next one to be handed out and
        distinct; usernames are distinct; every cart item belongs to a
        registered user. Nothing ties a cart item to an existing product:
        deleting a product leaves its cart items behind. */
    ghost predicate Valid()
      reads this
    {
      && 0 < nextUserId && 0 < nextProductId && 0 < nextItemId
      && (forall u :: u in users ==> 0 < u.id < nextUserId)
      && (forall p :: p in products ==> 0 < p.id < nextProductId)
      && (forall c :: c in cart ==> 0 < c.id < nextItemId)
      && Distinct(users, UserId) && UniqueUsernames(users)
      && Distinct(products, ProductId)
      && Distinct(cart, ItemId)
      && (forall c :: c in cart ==> c.userId in UserIds(users))
    }

    /** Empty tables whose keys start at 1. */
    constructor ()
      ensures Valid()
      ensures users == [] && products == [] && cart == []
      ensures nextUserId == 1 && nextProductId == 1 && nextItemId == 1
    {
      users, products, cart := [], [], [];
      nextUserId, nextProductId, nextItemId := 1, 1, 1;
    }

    /** `register`: a 400 if the username is taken; otherwise exactly one
        new user with the given name and password and a fresh id. */
    method Register(username: string, password: string) returns (r: Result<User>)
      requires Valid()
      modifies this`users, this`nextUserId
      ensures Valid()
      ensures (exists u :: u in old(users) && u.username == username) ==>
                r == Err(UsernameTaken) && users == old(users) && nextUserId == old(nextUserId)
      ensures (forall u :: u in old(users) ==> u.username != username) ==>
                && r == Ok(User(old(nextUserId), username, password))
                && users == old(users) + [r.value]
                && nextUserId == old(nextUserId) + 1
    {
      if First(users, NamedAs(username)).Some? {
        return Err(UsernameTaken);
      }
      var user := User(nextUserId, username, password);
      DistinctAppend(users, UserId, user);
      DistinctAppend(users, Username, user);
      assert UserIds(users) <= UserIds(users + [user]);
      users := users + [user];
      nextUserId := nextUserId + 1;
      r := Ok(user);
    }

    /** `add_product`: for an authenticated caller, exactly one new product
        with a fresh id. */
    method AddProduct(decoded: Option<Claims>, name: string, price: Price) returns (r: Result<Product>)
      requires Valid()
      modifies this`products, this`nextProductId
      ensures Valid()
      ensures CurrentUser(users, decoded).Err? ==>
                && r == Err(CurrentUser(users, decoded).error)
                && products == old(products) && nextProductId == old(nextProductId)
      ensures CurrentUser(users, decoded).Ok? ==>
                && r == Ok(Product(old(nextProductId), name, price))
                && products == old(products) + [r.value]
                && nextProductId == old(nextProductId) + 1
    {
      var caller := CurrentUser(users, decoded);
      if caller.Err? {
        return Err(caller.error);
      }
      var product := Product(nextProductId, name, price);
      DistinctAppend(products, ProductId, product);
      products := products + [product];
      nextProductId := nextProductId + 1;
      r := Ok(product);
    }

    /** `update_product`: a 404 if no product has the id; otherwise that
        product gets the new name and price and every other row is kept. */
    method UpdateProduct(decoded: Option<Claims>, id: int, name: string, price: Price) returns (r: Result<Product>)
      requires Valid()
      modifies this`products
      ensures Valid()
      ensures CurrentUser(users, decoded).Err? ==>
                r == Err(CurrentUser(users, decoded).error) && products == old(products)
      ensures CurrentUser(users, decoded).Ok? && GetProduct(old(products), id).Err? ==>
                r == Err(ProductNotFound) && products == old(products)
      ensures CurrentUser(users, decoded).Ok? && GetProduct(old(products), id).Ok? ==>
                r == Ok(Product(id, name, price)) && products == Updated(old(products), id, name, price)
    {
      var caller := CurrentUser(users, decoded);
      if caller.Err? {
        return Err(caller.error);
      }
      var found := GetProduct(products, id);
      if found.Err? {
        return Err(ProductNotFound);
      }
      UpdateKeepsIds(products, id, name, price);
      products := Updated(products, id, name, price);
      r := Ok(Product(id, name, price));
    }

    /** `delete_product`: a 404 if no product has the id; otherwise that
        row goes and every other row stays. The cart table is not touched. */
    method DeleteProduct(decoded: Option<Claims>, id: int) returns (r: Result<string>)
      requires Valid()
      modifies this`products
      ensures Valid()
      ensures CurrentUser(users, decoded).Err? ==>
                r == Err(CurrentUser(users, decoded).error) && products == old(products)
      ensures CurrentUser(users, decoded).Ok? && GetProduct(old(products), id).Err? ==>
                r == Err(ProductNotFound) && products == old(products)
      ensures CurrentUser(users, decoded).Ok? && GetProduct(old(products), id).Ok? ==>
                r == Ok(ProductRemoved) && products == Deleted(old(products), id)
    {
      var caller := CurrentUser(users, decoded);
      if caller.Err? {
        return Err(caller.error);
      }
      var found := GetProduct(products, id);
      if found.Err? {
        return Err(ProductNotFound);
      }
      WhereKeepsDistinct(products, OtherThan(id), ProductId);
      products := Deleted(products, id);
      r := Ok(ProductRemoved);
    }

    /** `add_to_cart`: a 404 if the product does not exist; otherwise
        exactly one new item, owned by the caller, for that product, with a
        fresh id. */
    method AddToCart(decoded: Option<Claims>, productId: int) returns (r: Result<CartItem>)
      requires Valid()
      modifies this`cart, this`nextItemId
      ensures Valid()
      ensures CurrentUser(users, decoded).Err? ==>
                && r == Err(CurrentUser(users, decoded).error)
                && cart == old(cart) && nextItemId == old(nextItemId)
      ensures CurrentUser(users, decoded).Ok? && GetProduct(products, productId).Err? ==>
                r == Err(ProductNotFound) && cart == old(cart) && nextItemId == old(nextItemId)
      ensures CurrentUser(users, decoded).Ok? && GetProduct(products, productId).Ok? ==>
                && r == Ok(CartItem(old(nextItemId), CurrentUser(users, decoded).value.id, productId))
                && cart == old(cart) + [r.value]
                && nextItemId == old(nextItemId) + 1
    {
      var caller := CurrentUser(users, decoded);
      if caller.Err? {
        return Err(caller.error);
      }
      var product := GetProduct(products, productId);
      if product.Err? {
        return Err(ProductNotFound);
      }
      var item := CartItem(nextItemId, caller.value.id, product.value.id);
      assert item.userId in UserIds(users);
      DistinctAppend(cart, ItemId, item);
      cart := cart + [item];
      nextItemId := nextItemId + 1;
      r := Ok(item);
    }

    /** `remove_from_cart`: a 404 unless the item exists and belongs to the
        caller; otherwise that item goes. Another user's item with the same
        id is never removed. */
    method RemoveFromCart(decoded: Option<Claims>, itemId: int) returns (r: Result<string>)
      requires Valid()
      modifies this`cart
      ensures Valid()
      ensures CurrentUser(users, decoded).Err? ==>
                r == Err(CurrentUser(users, decoded).error) && cart == old(cart)
      ensures CurrentUser(users, decoded).Ok? && FindOwnedItem(old(cart), CurrentUser(users, decoded).value.id, itemId).None? ==>
                r == Err(ItemNotFound) && cart == old(cart)
      ensures CurrentUser(users, decoded).Ok? && FindOwnedItem(old(cart), CurrentUser(users, decoded).value.id, itemId).Some? ==>
                r == Ok(ItemRemoved) && cart == WithoutItem(old(cart), itemId)
    {
      var caller := CurrentUser(users, decoded);
      if caller.Err? {
        return Err(caller.error);
      }
      var item := FindOwnedItem(cart, caller.value.id, itemId);
      if item.None? {
        return Err(ItemNotFound);
      }
      WhereKeepsDistinct(cart, OtherItemThan(itemId), ItemId);
      cart := WithoutItem(cart, itemId);
      r := Ok(ItemRemoved);
    }

    /** `checkout`: for an authenticated caller it never fails and deletes
        all and only the caller's items. */
    method Checkout(decoded: Option<Claims>) returns (r: Result<string>)
      requires Valid()
      modifies this`cart
      ensures Valid()
      ensures CurrentUser(users, decoded).Err? ==>
                r == Err(CurrentUser(users, decoded).error) && cart == old(cart)
      ensures CurrentUser(users, decoded).Ok? ==>
                r == Ok(PurchaseCompleted) && cart == CheckedOut(old(cart), CurrentUser(users, decoded).value.id)
    {
      var caller := CurrentUser(users, decoded);
      if caller.Err? {
        return Err(caller.error);
      }
      WhereKeepsDistinct(cart, NotOwnedBy(caller.value.id), ItemId);
      cart := CheckedOut(cart, caller.value.id);
      r := Ok(PurchaseCompleted);
    }
  }
}
