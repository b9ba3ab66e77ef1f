/** The rows the extractor produces. */
module Records {

  /** One product row: the five text columns filled from a card or from embedded state. */
  datatype Product = Product(
    name: string,         // product_name
    sku: string,          // product_model_or_SKU
    description: string,  // part_description
    price: string,        // price, raw display text
    detailUrl: string)    // detail_page_url, "" when unknown

  /**
   * A row with its `detailed_specs` column. The column holds the spec table
   * serialised as a JSON object; the model keeps the table itself, and the
   * empty table is the `"{}"` text.
   */
  datatype Record = Record(product: Product, specs: map<string, string>)
}
