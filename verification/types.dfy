/** The catalog entry shared by every screen. The `Product` type itself lives in a
    `types` module of the app that is not part of this model; its fields are the
    ones the feed builds from the remote payload. */
module Types {

  /** A catalog product. Identity is by `id`; two products with the same `id`
      are the same favorite even when other fields differ. */
  datatype Product = Product(id: int, title: string, description: string, image: string)
}
