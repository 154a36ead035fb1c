/** The canonical records every store adapter produces
    (packages/adapters/src/utils/types.ts). */
module AdapterTypes {

  /** One (name, value) pair describing a variant dimension, e.g. ("Size", "M"). */
  datatype VariantAttribute = VariantAttribute(name: string, value: string)

  /** One observed variant: its attributes, its price in cents and whether it
      can be bought. This is the record the Uniqlo adapter builds; the
      declared type also has a `productUrl`, which that adapter never sets. */
  datatype ProductPrice = ProductPrice(attributes: seq<VariantAttribute>, priceInCents: int, inStock: bool)

  /** What `getProductDetails` returns: the product name, the kept prices and,
      position by position, their attribute lists. */
  datatype ProductDetails = ProductDetails(name: string, prices: seq<ProductPrice>, variants: seq<seq<VariantAttribute>>)
}
