/** The shapes of the Uniqlo US commerce API (v5) responses as the adapter
    sees them after schema validation, the errors the adapter throws, and the
    status checks every call performs. */
module UniqloApi {
  import opened Results

  /** The `status` sentinel of every response body. */
  datatype ApiStatus = StatusOk | StatusNok

  /** A body that passed schema validation: `{ status, result }`. */
  datatype Envelope<+T> = Envelope(status: ApiStatus, result: T)

  /** One HTTP response. `body` is None when the schema validator rejected the
      body (zod's `parse` throws). */
  datatype Reply<+T> = Reply(httpStatus: int, body: Option<Envelope<T>>)

  /** Products listing: `result.items[].productId` and `result.pagination.total`. */
  datatype ListedProduct = ListedProduct(productId: string)
  datatype ProductsResult = ProductsResult(items: seq<ListedProduct>, total: int)

  /** The `color`, `size` and `pld` objects of an l2s variant. */
  datatype OptionRef = OptionRef(code: string, displayCode: string)

  /** One entry of `result.l2s`. */
  datatype L2Variant = L2Variant(l2Id: string, color: OptionRef, size: OptionRef, pld: OptionRef)

  /** `result.stocks[l2Id]` and `result.prices[l2Id]`; `baseValue` is the
      JavaScript number `base.value`, in dollars. */
  datatype StockEntry = StockEntry(quantity: int)
  datatype PriceEntry = PriceEntry(baseValue: real)

  /** The l2s (variants with prices and stocks) response. */
  datatype L2sResult = L2sResult(l2s: seq<L2Variant>, stocks: map<string, StockEntry>, prices: map<string, PriceEntry>)

  /** One entry of the details' `colors`, `sizes` or `plds` lists. */
  datatype DetailOption = DetailOption(code: string, displayCode: string, name: string, showFlag: bool)

  /** The details response: `name` and the option lists. */
  datatype DetailsResult = DetailsResult(name: string, colors: seq<DetailOption>, sizes: seq<DetailOption>, plds: seq<DetailOption>)

  /** The details and l2s endpoints, as the response each gives for a product code. */
  type DetailsSource = string -> Reply<DetailsResult>
  type L2sSource = string -> Reply<L2sResult>

  /** Every way the adapter fails: one constructor per distinct error
      message, carrying the values the message is built from. Throws with
      the same message share a constructor. */
  datatype Error =
    | SchemaMismatch                                   // the schema validator threw
    | ProductsHttpStatus(status: int)                  // "Failed to get products. Status code: …"
    | ProductsNok                                      // "Failed to get products"
    | ProductCodeUnresolved(url: string)               // "Failed to get product code from …"
    | DetailsHttpStatus(productCode: string, l2sStatus: int, detailsStatus: int)
                                                       // "Failed to get product details for …. Status codes: …"
    | DetailsNok(productCode: string)                  // "Failed to get product details for …"
    | UnknownOption                                    // "Failed to parse product details"
    | NoCodeInUrl                                      // legacy: dereferencing the null match
    | RequestFailed                                    // legacy: the price request failed
    | MissingVariantAt(index: nat)                     // legacy: `l2s[index]` is undefined
    | MissingPriceFor(key: string)                     // legacy: `prices[key]` is undefined

  /** The response is accepted: HTTP 200, a valid body and status "ok". */
  predicate Accepted<T>(reply: Reply<T>) {
    reply.httpStatus == 200 && reply.body.Some? && reply.body.value.status == StatusOk
  }

  /** The check each single-response call performs, in the source's order:
      the HTTP status, then the schema, then the "nok" sentinel. */
  function Validated<T>(reply: Reply<T>, statusError: Error, nokError: Error): (r: Result<T, Error>)
    ensures r.Ok? <==> Accepted(reply)
    ensures r.Ok? ==> r.value == reply.body.value.result
    ensures reply.httpStatus != 200 ==> r == Err(statusError)
    ensures reply.httpStatus == 200 && reply.body.None? ==> r == Err(SchemaMismatch)
    ensures reply.httpStatus == 200 && reply.body.Some? && reply.body.value.status == StatusNok ==> r == Err(nokError)
  {
    if reply.httpStatus != 200 then Err(statusError)
    else if reply.body.None? then Err(SchemaMismatch)
    else if reply.body.value.status == StatusNok then Err(nokError)
    else Ok(reply.body.value.result)
  }
}
