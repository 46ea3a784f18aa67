# E-commerce API handlers in Dafny

This project models the request handlers of a small e-commerce API (`main.py`).
Users register and log in with a bearer token. Anyone can read the product
catalogue. An authenticated caller can add, update and delete products, and
can fill, list, trim and check out a cart of their own.

The database is three tables kept in storage order: `users`, `products` and
`cart_items`. Each table has its own counter for the next primary key.

- `Records` holds the rows, the `HTTPException`s the handlers raise (status
  code and Portuguese detail message, as in the source) and `Result`.
- `Query` models the two query shapes the handlers use. `.filter(...).all()`
  is `Where` and `.filter(...).first()` is `First`. A delete keeps the rows
  the negated filter accepts, and an update rewrites the selected rows in
  place. The lemmas about these shapes are shared by all three tables.
- `Like` models `ilike(f"%{q}%")` as SQL `LIKE`. `%` and `_` in the query
  stay wildcards, and letters match up to ASCII case.
- `Tokens` models `create_access_token` on the token's claims.
- `Accounts`, `Catalog` and `Basket` hold the read-only handlers as
  functions of the tables, and the lemmas about them.
- `Shop.Store` is the store. It is a class whose fields are the tables and
  the key counters, with one method per handler that writes. `Valid()` is
  its invariant: keys are positive, fresh and distinct; usernames are
  distinct; every cart item belongs to a registered user. Each method's
  `modifies` clause names only the fields it may change. Nothing links a
  cart item to an existing product, because the model's `DeleteProduct`
  changes only the products table.

A protected handler takes the claims that decoding the bearer token
produced, with `None` meaning that the token library rejected the token.
The handler resolves the caller with `Accounts.CurrentUser` first, and
returns that 401 before it looks at anything else.

The current time is a parameter (`now`, whole seconds).

## Model

| member | source | states |
|---|---|---|
| `Query.Where` | main.py:192 | a filtered query returns exactly the rows the condition accepts, never more rows than the table holds |
| `Query.First` | main.py:132 | `.first()` is empty exactly when no row matches; otherwise it is a matching row of the table |
| `Tokens.CreateAccessToken` | main.py:74-78 | keeps every given claim, adds `exp` and no other key; `exp` is now + delta, or now + 15 minutes when the delta is missing or zero |
| `Accounts.Login` | main.py:99-112 | succeeds iff some user has both the username and the password; the token has exactly `sub` = that username and `exp` = now + 60 minutes, type `bearer`; otherwise 401 "Credenciais inválidas" |
| `Accounts.CurrentUser` | main.py:80-91 | rejected token: 401; no `sub`: 401 "Token inválido"; a string subject succeeds iff a user has that username, returning such a user, else 401 "Usuário inválido" |
| `Accounts.SubjectResolves` | main.py:83-89 | with unique usernames, any token whose subject is a stored user's name resolves to exactly that user |
| `Accounts.LoginThenCurrentUser` | main.py:80-112 | the token a successful login issues resolves to the user whose username and password were given |
| `Accounts.RegisterThenLogin` | main.py:99-123 | registering an unused name keeps usernames unique, and the new user can log in at once with a token that resolves to them |
| `Catalog.GetProducts` | main.py:126-128 | the whole products table, unfiltered, in storage order |
| `Catalog.GetProduct` | main.py:130-135 | 404 "Produto não encontrado" iff no product has the id; otherwise a stored product with that id |
| `Catalog.SearchProducts` | main.py:137-139 | returns exactly the products whose name matches the `LIKE` pattern `%q%` |
| `Catalog.Updated` | main.py:151-158 | every row keeps its id; rows with the id get the new name and price; all other rows are unchanged |
| `Catalog.Deleted` | main.py:162-167 | exactly the rows whose id differs remain |
| `Catalog.AddThenGet` | main.py:141-147 | a product added with a new id is found by that id, and every other id finds what it found before |
| `Catalog.UpdateThenGet` | main.py:149-158 | after an update the id finds the new name and price; every other id finds what it found before |
| `Catalog.UpdateKeepsIds` | main.py:154-155 | an update keeps ids distinct and invents no id |
| `Catalog.DeleteThenGet` | main.py:160-167 | after a delete the id is not found (404); every other id finds what it found before |
| `Catalog.DeleteRemovesOne` | main.py:165 | with distinct ids, a delete takes out exactly the one row with that id and keeps the others in order |
| `Catalog.SearchBySubstring` | main.py:139 | for a query without `%` or `_`, the search returns exactly the products whose name contains the query, ignoring ASCII case |
| `Catalog.PercentSearchListsAll` | main.py:139 | the unescaped query `%` returns the whole table |
| `Like.SearchIsSubstring` | main.py:139 | for a query without wildcards, `name ILIKE '%q%'` holds iff `q` occurs in the name, ignoring ASCII case |
| `Like.PercentQueryMatchesAll` | main.py:139 | the query `%` matches every name, the empty one included |
| `Like.UnderscoreQueryMatchesNonEmpty` | main.py:139 | the query `_` matches exactly the non-empty names |
| `Like.Lower` | main.py:139 | ASCII letters are lower-cased; every other character is left as it is |
| `Basket.CartOf` | main.py:192 | exactly the items whose owner is the given user |
| `Basket.FindOwnedItem` | main.py:183-185 | empty iff no item has both that id and that owner; otherwise such an item |
| `Basket.WithoutItem` | main.py:186 | exactly the items with a different id remain |
| `Basket.CheckedOut` | main.py:196 | exactly the items of other owners remain |
| `Basket.AddShowsOnlyInOwnCart` | main.py:175-176 | an added item appears at the end of its owner's cart, and every other user's cart is unchanged |
| `Basket.CheckoutEmptiesCart` | main.py:194-198 | after checkout the user's cart is empty |
| `Basket.CheckoutIdempotent` | main.py:196 | a second checkout leaves the table as the first one left it |
| `Basket.CheckoutKeepsOtherCarts` | main.py:196 | checkout leaves every other user's cart as it was |
| `Basket.RemoveOwnedItem` | main.py:181-188 | with distinct ids, removing an owned item takes out exactly that row, and every other user's cart is unchanged |
| `Shop.GetCart` | main.py:190-192 | the caller's 401 if authentication fails; otherwise exactly the caller's items |
| `Shop.Store.constructor` | main.py:35-36 | empty tables whose key counters all start at 1, satisfying the store invariant |
| `Shop.Store.Register` | main.py:114-123 | 400 "Usuário já existe" and no change if the name is taken; otherwise exactly one new user with that name and password and a fresh id, which is returned; the invariant is kept |
| `Shop.Store.AddProduct` | main.py:141-147 | the caller's 401 with no change; otherwise exactly one new product with a fresh id, returned |
| `Shop.Store.UpdateProduct` | main.py:149-158 | the caller's 401, or 404 iff no product has the id, both with no change; otherwise the table becomes `Updated` and the new product is returned |
| `Shop.Store.DeleteProduct` | main.py:160-167 | the caller's 401, or 404 iff no product has the id, both with no change; otherwise the table becomes `Deleted`; the cart is never touched |
| `Shop.Store.AddToCart` | main.py:170-179 | the caller's 401, or 404 if the product does not exist, both with no change; otherwise exactly one new item owned by the caller for that product, with a fresh id |
| `Shop.Store.RemoveFromCart` | main.py:181-188 | the caller's 401, or 404 unless an item with the id belongs to the caller, both with no change; otherwise the table becomes `WithoutItem` |
| `Shop.Store.Checkout` | main.py:194-198 | the caller's 401 with no change; otherwise it never fails and the table becomes `CheckedOut` for the caller |

## Left out

- Signing and verifying tokens (JSON Web Token, HS256 as in section 3.2 of
  RFC 7518) is done by the token library. A token is the map of its claims,
  and a protected handler receives what decoding produced. The library's
  expiry check is therefore not modelled. A subject that is not a string is
  treated as a rejected token, because the library refuses it.
- Clock and time arithmetic: `now` is a parameter in whole seconds, and
  sub-second parts of a `timedelta` are not modelled.
- The framework: routing, CORS, dependency injection, the session lifecycle
  of `get_db`, table creation, and response serialization. In particular,
  the model does not hide the password from `register`'s response, and it
  returns the stored cart row rather than the nested product of the
  `CartItem` response schema.
- Route order: `/api/products/{product_id}` (main.py:130) is declared
  before `/api/products/search` (main.py:137), so a request for
  `/api/products/search?q=...` is matched by the first route, fails the
  `product_id: int` conversion and is answered 422. As the routes are
  declared, `search_products` cannot be reached over HTTP.
  `Catalog.SearchProducts` models the handler function itself.
- The root route `/` returns a constant message and is not modelled.
- Database behaviour:
  - Commit and refresh, and concurrency: each handler is one atomic step.
  - Key allocation is a counter per table that never reuses a key. A
    backend that hands out a deleted key again is not modelled.
  - The unique constraints declared only in the model files are not
    modelled: product names may repeat in the model. Usernames are unique
    because `register` checks them.
  - Relationship cascades are not modelled. `ProductDB.cart_items`
    (models/product.py:11) has the default cascade, so on
    `db.delete(product)` the ORM sets the `product_id` of that product's
    cart items to NULL; the model leaves those cart items unchanged.
- `ilike` folds ASCII case only. Backends that fold other letters are not
  modelled, and neither is a default escape character (such as the
  backslash in PostgreSQL). `database.py`, which would name the backend, is
  not part of this model.
- `price` is a `real`. No arithmetic is done on it, so floating point plays
  no part.
- The schema files and other variants of these routes describe a partial
  product update (`ProductUpdate`), a cart quantity and `/users/me`. The
  model follows `main.py`, which replaces both name and price, never sets
  a quantity, and has no such route.
- Catalog.SearchProducts: its contract states which products are returned,
  not their order. The order is storage order by the definition of
  `Query.Where`.
- Basket.CartOf: its contract states which items are returned, not their
  order. The order is storage order by the definition of `Query.Where`.
