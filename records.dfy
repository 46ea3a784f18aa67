/** Rows of the three tables (users, products, cart_items), the errors the
    handlers raise, and the result type that carries them. */
module Records {

  datatype Option<+T> = None | Some(value: T)

  /** A price is stored and returned, never computed with: a `real` stands
      for the database float. */
  type Price = real

  /** A row of `users`. The password is stored as given. */
  datatype User = User(id: int, username: string, password: string)

  /** A row of `products`. */
  datatype Product = Product(id: int, name: string, price: Price)

  /** A row of `cart_items`: which user put which product in the cart. */
  datatype CartItem = CartItem(id: int, userId: int, productId: int)

  /** An `HTTPException`: a status code and its detail message. */
  datatype HttpError = HttpError(status: int, detail: string)

  const UsernameTaken := HttpError(400, "Usuário já existe")
  const BadCredentials := HttpError(401, "Credenciais inválidas")
  const InvalidToken := HttpError(401, "Token inválido")
  const InvalidUser := HttpError(401, "Usuário inválido")
  const TokenRejected := HttpError(401, "Token inválido ou expirado")
  const ProductNotFound := HttpError(404, "Produto não encontrado")
  const ItemNotFound := HttpError(404, "Item não encontrado")

  /** What a handler returns: its response, or the exception it raised. */
  datatype Result<+T> = Ok(value: T) | Err(error: HttpError)

  function UserId(u: User): int { u.id }
  function Username(u: User): string { u.username }
  function ProductId(p: Product): int { p.id }
  function ItemId(c: CartItem): int { c.id }
}
