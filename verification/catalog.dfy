/** The catalog records shared by the scripts and the API: one product
    entry of `metadata.json` and the file's top-level object. */
module Catalog {
  import opened Common

  /** A product entry. `originalImagePath` is present only in entries written
      by the preprocessing script. */
  datatype Product = Product(
    id: int,
    name: string,
    category: string,
    imagePath: string,
    imageUrl: string,
    price: string,
    description: string,
    inStock: bool,
    originalImagePath: Option<string>)

  /** `{'products': ..., 'categories': ..., 'total_products': ...}` */
  datatype Metadata = Metadata(products: seq<Product>, categories: seq<string>, totalProducts: int)
}
