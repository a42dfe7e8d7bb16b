/** The storefront's records, reduced to the fields that the reducer, the
    recommendation engine and the product grid read. */
module Catalog {

  /** The category value that stands for "every category". */
  const AllCategories: string := "all"

  /** A catalog entry. Products are immutable and compared by `id`. */
  datatype Product = Product(
    id: string,
    name: string,
    description: string,
    brand: string,
    category: string,
    price: real,
    rating: real,
    tags: seq<string>,
    inStock: bool)

  /** One cart line: a product and how many of it. */
  datatype CartItem = CartItem(product: Product, quantity: int)

  /** The signed-in shopper. `viewHistory` holds product ids, most recent first. */
  datatype User = User(
    id: string,
    name: string,
    email: string,
    preferences: seq<string>,
    viewHistory: seq<string>)
}
