/** The `cart_items` table seen by the cart handlers. Every lookup is
    filtered by the owner, so a user never sees or removes another user's
    items. */
module Basket {
  import opened Records
  import opened Query

  /** `CartItemDB.user_id == userId` */
  function OwnedBy(userId: int): CartItem -> bool
  {
    (c: CartItem) => c.userId == userId
  }

  /** The rows a bulk delete of one user's items leaves behind. */
  function NotOwnedBy(userId: int): CartItem -> bool
  {
    (c: CartItem) => c.userId != userId
  }

  /** `CartItemDB.id == itemId, CartItemDB.user_id == userId` */
  function OwnedItem(userId: int, itemId: int): CartItem -> bool
  {
    (c: CartItem) => c.id == itemId && c.userId == userId
  }

  /** The rows a delete by primary key leaves behind. */
  function OtherItemThan(itemId: int): CartItem -> bool
  {
    (c: CartItem) => c.id != itemId
  }

  /** `get_cart` once the user is known: that user's items, in storage order. */
  function CartOf(cart: seq<CartItem>, userId: int): (r: seq<CartItem>)
    ensures forall c :: c in r <==> c in cart && c.userId == userId
  {
    Where(cart, OwnedBy(userId))
  }

  /** The lookup of `remove_from_cart`: the item with that id, provided it
      belongs to the user. */
  function FindOwnedItem(cart: seq<CartItem>, userId: int, itemId: int): (r: Option<CartItem>)
    ensures r.None? <==> forall c :: c in cart ==> c.id != itemId || c.userId != userId
    ensures r.Some? ==> r.value in cart && r.value.id == itemId && r.value.userId == userId
  {
    First(cart, OwnedItem(userId, itemId))
  }

  /** The table after `remove_from_cart` has deleted the item with that id. */
  function WithoutItem(cart: seq<CartItem>, itemId: int): (r: seq<CartItem>)
    ensures forall c :: c in r <==> c in cart && c.id != itemId
  {
    Where(cart, OtherItemThan(itemId))
  }

  /** The table after `checkout` has deleted all of the user's items. */
  function CheckedOut(cart: seq<CartItem>, userId: int): (r: seq<CartItem>)
    ensures forall c :: c in r <==> c in cart && c.userId != userId
  {
    Where(cart, NotOwnedBy(userId))
  }

  /** An item added for one user shows at the end of that user's cart and
      in nobody else's. */
  lemma AddShowsOnlyInOwnCart(cart: seq<CartItem>, item: CartItem, userId: int)
    ensures CartOf(cart + [item], userId) ==
              if item.userId == userId then CartOf(cart, userId) + [item] else CartOf(cart, userId)
  {
    WhereAppend(cart, [item], OwnedBy(userId));
    assert [item][1..] == [];
  }

  /** After checkout the user's cart is empty. */
  lemma CheckoutEmptiesCart(cart: seq<CartItem>, userId: int)
    ensures CartOf(CheckedOut(cart, userId), userId) == []
  {
    WhereNone(CheckedOut(cart, userId), OwnedBy(userId));
  }

  /** A second checkout changes nothing. */
  lemma CheckoutIdempotent(cart: seq<CartItem>, userId: int)
    ensures CheckedOut(CheckedOut(cart, userId), userId) == CheckedOut(cart, userId)
  {
    WhereNarrowed(cart, NotOwnedBy(userId), NotOwnedBy(userId));
  }

  /** Checkout leaves every other user's cart as it was. */
  lemma CheckoutKeepsOtherCarts(cart: seq<CartItem>, userId: int, other: int)
    requires other != userId
    ensures CartOf(CheckedOut(cart, userId), other) == CartOf(cart, other)
  {
    WhereNarrowed(cart, NotOwnedBy(userId), OwnedBy(other));
  }

  /** With distinct item ids, removing an item the user owns takes exactly
      that row out and leaves every other user's cart as it was. */
  lemma RemoveOwnedItem(cart: seq<CartItem>, userId: int, itemId: int, k: int)
    requires Distinct(cart, ItemId)
    requires 0 <= k < |cart| && cart[k].id == itemId && cart[k].userId == userId
    ensures WithoutItem(cart, itemId) == cart[..k] + cart[k + 1..]
    ensures forall other :: other != userId ==> CartOf(WithoutItem(cart, itemId), other) == CartOf(cart, other)
  {
    forall i | 0 <= i < |cart| && i != k ensures OtherItemThan(itemId)(cart[i]) {
      if i < k {
        assert ItemId(cart[i]) != ItemId(cart[k]);
      } else {
        assert ItemId(cart[k]) != ItemId(cart[i]);
      }
    }
    WhereDropsIndex(cart, OtherItemThan(itemId), k);
    forall other | other != userId
      ensures CartOf(WithoutItem(cart, itemId), other) == CartOf(cart, other)
    {
      forall c | c in cart && OwnedBy(other)(c) ensures OtherItemThan(itemId)(c) {
        if c.id == itemId {
          DistinctKey(cart, ItemId, c, cart[k]);
        }
      }
      WhereNarrowed(cart, OtherItemThan(itemId), OwnedBy(other));
    }
  }
}
