/** The identifiers the core works with. The Product and Wishlist entity
    classes are not part of this model beyond their keys: a product is known
    by its id, and a wishlist row by the (member email, product id) pair it
    links, which is how the wishlist store looks rows up and deletes them. */
module Entities {

  type Email = string

  /** A product's numeric id (a Java long; no arithmetic is done on it). */
  type ProductId = int

  /** One wishlist row: member `memberEmail` wants product `productId`. */
  datatype Wishlist = Wishlist(memberEmail: Email, productId: ProductId)
}
