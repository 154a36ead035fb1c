# Uniqlo US store adapter: a verified model

This project models the Uniqlo US store adapter. The adapter is the part of
the price tracker that talks to Uniqlo's commerce API. The model also covers
the older Uniqlo service it replaced. Four operations are covered:

- **product discovery** (`getProducts`): pages through the product listing,
  100 items per page, and collects every product id. With a truthy `limit`
  the number of pages is fixed by the limit. Without one, the total the
  listing reports drives the paging.
- **product code resolution** (`getProductCode`): takes the first
  `[a-zA-Z0-9]{7}-[0-9]{3}` code in a user-supplied URL and checks with the
  details endpoint that the product exists.
- **product details** (`getProductDetails`): joins the l2s variants with
  their stock and price entries and with the color, size and length (pld)
  options of the details response. Each variant gets an attribute list
  (Color, Size, Length, each only when its display flag is set). An
  out-of-stock variant that lacks a dimension some other variant uses is
  then dropped.
- **legacy item data** (`getItemData`): maps each stock entry of the l2s
  response to a flat row. Entries are paired with variants by position, and
  a missing variant or price raises an error.

The model replaces each HTTP endpoint with a function parameter from the
request to a reply. A `Reply` is the HTTP status plus the body as the schema
validator saw it: `None` when validation rejected the body, otherwise the
`ok`/`nok` envelope and its result. Each distinct error message an
operation throws is one constructor of `UniqloApi.Error`, and throws with
the same message share it: the three throws of `getProductCode` are all
`ProductCodeUnresolved(url)`. A constructor carries the values its message
is built from. For example, `ProductsHttpStatus` carries the status, and
`DetailsHttpStatus` carries the product code and both statuses.
Constructors whose message is a fixed text, such as `ProductsNok` and
`UnknownOption`, carry nothing.

Modules:

- `Results`: `Option` and `Result`.
- `Sequences`: filtering and subsequences.
- `AdapterTypes`: the adapter's output records.
- `UniqloApi`: response shapes, errors, and reply validation.
- `ProductCodePattern`: the code regex.
- `UniqloDiscovery`, `UniqloProductCode` and `UniqloDetails`: the three
  adapter operations.
- `LegacyUniqloService`: `getItemData`.

The loops of the source are methods. `GetProducts`, `JoinVariants` and
`MapStocks` are each proved against a specification function or a stated
property. The properties the store-adapter contract promises are lemmas
about those functions.

The system documents a store-adapter contract with the operations
`discoverProducts`, `fetchProductDetails` and `normalize`. Where that
contract and this adapter's code disagree, the model follows the code:

- **Discovery with a limit.** The `discoverProducts` contract stops at `limit`
  items or when the listing is exhausted, whichever comes first. With a
  truthy limit the code never reads the reported total. So a positive
  limit, with every page accepted, asks for exactly `limit` items over
  ceil(limit / 100) pages. A refused page ends the call earlier. A
  negative limit issues no request. See `DiscoveryWithLimit` and
  `NonPositiveLimitFetchesNothing`.
- **A variant missing from the details.** The `fetchProductDetails`
  contract drops a variant that is missing from the details feed. The code drops a variant only
  when its stock or price entry is missing. A variant whose color, size or
  pld code is not among the details options makes the whole call throw. See
  `JoinAll`.
- **Attribute order.** The `normalize` contract sorts attributes stably by name.
  The code emits them in the fixed order Color, Size, Length and sorts
  nothing. See `CanonicalAttributes` and `PriceOf`.
- **Duplicate variants.** The `normalize` contract rejects duplicate
  normalized variants with a conflict error. The code has no such check, so nothing in the model rejects
  duplicates either.

## Model

| member | source | states |
|---|---|---|
| UniqloApi.Validated | packages/adapters/src/adapters/uniqlo-us/index.ts:25-32 | A reply yields its result exactly when the status is 200, the body passed the schema and the envelope is `ok`. Otherwise it yields the status error, the schema error or the `nok` error, checked in that order. |
| UniqloDiscovery.ReadPage | packages/adapters/src/adapters/uniqlo-us/index.ts:25-34 | A listing page is accepted exactly when validation passes, and then yields the page's items and total. |
| UniqloDiscovery.ProductIds | packages/adapters/src/adapters/uniqlo-us/index.ts:35 | One id per listed item, in item order. |
| UniqloDiscovery.GetProducts | packages/adapters/src/adapters/uniqlo-us/index.ts:14-43 | The loop issues exactly the requests, and returns exactly the outcome, of the crawl specification `Discover`. |
| UniqloDiscovery.DiscoveryPageGeometry | packages/adapters/src/adapters/uniqlo-us/index.ts:18-21 | Request k is at offset 100·k and asks for between 1 and 100 items. |
| UniqloDiscovery.DiscoveryWithLimit | packages/adapters/src/adapters/uniqlo-us/index.ts:20-39 | With a positive limit the requests are a prefix of the fixed plan for `limit`, and all of it when the call succeeds. The plan's counts sum to `limit` over ceil(limit/100) pages, whatever the listing reports. |
| UniqloDiscovery.PlanFor250 | packages/adapters/src/adapters/uniqlo-us/index.ts:18-21 | `limit = 250` gives the three requests (0,100), (100,100) and (200,50). |
| UniqloDiscovery.NonPositiveLimitFetchesNothing | packages/adapters/src/adapters/uniqlo-us/index.ts:20 | A limit ≤ 0 issues no request and returns no ids. |
| UniqloDiscovery.DiscoveryWithoutLimit | packages/adapters/src/adapters/uniqlo-us/index.ts:20-39 | With no limit the first request is (0,100). Each later request lies below the total the previous page reported and asks for what is left of it, at most 100. A successful crawl ends once that total is covered. |
| UniqloDiscovery.DiscoveryOutcome | packages/adapters/src/adapters/uniqlo-us/index.ts:25-42 | The call succeeds exactly when every page it asked for was accepted, and then returns the pages' ids in request order. Otherwise it throws the error of the last page asked for, and every earlier page was accepted. |
| UniqloDiscovery.FullPagesGiveExactlyLimit | packages/adapters/src/adapters/uniqlo-us/index.ts:14-43 | When every accepted page holds as many items as it was asked for, a successful call with a positive limit returns exactly `limit` ids. |
| ProductCodePattern.FirstMatch | packages/adapters/src/adapters/uniqlo-us/index.ts:46-49 | None exactly when no position matches 7 ASCII letters or digits, a hyphen and 3 digits. Otherwise the value is the 11 characters at the leftmost matching position. |
| ProductCodePattern.CodeIsItsOwnMatch | packages/adapters/src/adapters/uniqlo-us/index.ts:46-49 | A well-formed code matches as itself. |
| ProductCodePattern.CodeAfterHyphenFreePrefix | packages/adapters/src/adapters/uniqlo-us/index.ts:46-49 | A code preceded by hyphen-free text is the match found, whatever follows it. |
| UniqloProductCode.GetProductCode | packages/adapters/src/adapters/uniqlo-us/index.ts:45-68 | Succeeds exactly when the URL holds a code and the details reply for that code is accepted. It then returns the leftmost well-formed code. Every failure is the "cannot resolve this URL" error, except a body the schema rejects. |
| UniqloDetails.FindOption | packages/adapters/src/adapters/uniqlo-us/index.ts:107-109 | Returns the first option with the given code, or None exactly when no option has it. |
| UniqloDetails.ThreePushes | packages/adapters/src/adapters/uniqlo-us/index.ts:114-126 | The three conditional pushes give at most three attributes, in Color, Size, Length order with none repeated. Each dimension is present exactly when its flag is set. |
| UniqloDetails.Attributes | packages/adapters/src/adapters/uniqlo-us/index.ts:114-126 | A variant's attribute list is canonical and has at most 3 entries. It has Color, Size or Length exactly when that option's display flag is set, and every entry is one of the three built values. |
| UniqloDetails.VariantAttributes | packages/adapters/src/adapters/uniqlo-us/index.ts:114-126 | The in-place pushes build exactly `Attributes`. |
| UniqloDetails.PriceOf | packages/adapters/src/adapters/uniqlo-us/index.ts:128-132 | One record per variant. It is in stock exactly when the quantity is positive, its price is the converted base price, and its attributes are canonical and follow the found options' flags. |
| UniqloDetails.JoinAll | packages/adapters/src/adapters/uniqlo-us/index.ts:100-112 | The join succeeds exactly when every variant that has both a stock and a price entry has known color, size and pld options. Otherwise it fails with the unknown-option error. |
| UniqloDetails.JoinAllRecords | packages/adapters/src/adapters/uniqlo-us/index.ts:100-133 | A successful join emits, in l2s order, exactly one built record per variant that has both entries. Other variants are skipped, not defaulted. |
| UniqloDetails.JoinedCanonical | packages/adapters/src/adapters/uniqlo-us/index.ts:114-132 | Every joined record's attribute list is in canonical order. |
| UniqloDetails.UsedMeansShown | packages/adapters/src/adapters/uniqlo-us/index.ts:99-126 | A dimension counts as used exactly when the option of some joined variant for that dimension has its display flag set. |
| UniqloDetails.UsedDimensionsSnoc | packages/adapters/src/adapters/uniqlo-us/index.ts:117-125 | Adding a record sets a used-dimension flag where that record shows the dimension and leaves the other flags as they were. |
| UniqloDetails.JoinVariants | packages/adapters/src/adapters/uniqlo-us/index.ts:98-133 | The forEach loop yields exactly the join's records, or its error. Its three flags equal the dimensions the records use. |
| UniqloDetails.AttributeLists | packages/adapters/src/adapters/uniqlo-us/index.ts:148 | `variants[k]` is the attribute list of `prices[k]`. |
| UniqloDetails.CompletenessFilter | packages/adapters/src/adapters/uniqlo-us/index.ts:136-143 | The filter keeps a record exactly when it misses no used dimension or is in stock. It keeps every copy of such a record and no copy of any other, preserves order, and keeps every in-stock record. |
| UniqloDetails.MissingSizeKeptOnlyInStock | packages/adapters/src/adapters/uniqlo-us/index.ts:140-142 | For a product using Color and Size but not Length, a variant without Size is kept exactly when it is in stock. |
| UniqloDetails.KeptCanonical | packages/adapters/src/adapters/uniqlo-us/index.ts:136-143 | The filter keeps the records' canonical attribute order. |
| UniqloDetails.DetailsOutcome | packages/adapters/src/adapters/uniqlo-us/index.ts:70-149 | A status other than 200 on either reply gives the status error with the product code and both statuses. A rejected body gives the schema error. A `nok` envelope gives the `nok` error with the product code, and an unknown option gives the unknown-option error. The call succeeds exactly when both replies are accepted and the join succeeds. The result then carries the details name, and `variants` matches `prices` position by position. |
| UniqloDetails.DetailsKeepPolicy | packages/adapters/src/adapters/uniqlo-us/index.ts:135-149 | The returned prices are an order-preserving subsequence of the joined records. They hold exactly those that miss no used dimension or are in stock, with every copy of each, and they keep every in-stock record, each with a canonical attribute list. |
| UniqloDetails.GetProductDetails | packages/adapters/src/adapters/uniqlo-us/index.ts:70-149 | The method returns exactly `DetailsOutcome` of the two replies. |
| Sequences.FilterOfFilter | packages/adapters/src/adapters/uniqlo-us/index.ts:136-143 | Filtering by a stricter predicate after a filter is the same as filtering by the stricter predicate alone. This is why no in-stock record is lost. |
| LegacyUniqloService.MapStocks | src/services/uniqlo.ts:38-52 | Succeeds exactly when every stock entry has a variant at its position and a price for its key. Row k then describes entry k and variant k. Otherwise the error names the first entry that cannot be mapped. |
| LegacyUniqloService.GetItemData | src/services/uniqlo.ts:24-55 | No code in the URL and a failed request each give their own error. Otherwise the call succeeds exactly when every entry can be mapped. Row k then describes entry k, and every row carries the given store id. If some entry cannot be mapped, the error is that of the first such entry. |

## Left out

- HTTP, proxies (`useProxy`, `getHttpsProxyAgent`), `axios.all` and the endpoint URLs are not modelled. Each endpoint is a function parameter from the request, or the product code, to its reply.
- axios's rejection of non-2xx statuses is not modelled separately. Every status other than 200 gives the operation's status error, which is the error a 2xx status other than 200 gives.
- The zod schemas are not modelled field by field. A reply's body is either the validated shape or `None`, and `None` is the single schema error.
- `dollarsToCents`, `toTitleCase` and the `toString` of a float are parameters. Their code is not part of this model.
- Floating-point prices are `real`. Three JavaScript numbers are integers in the model: `limit`, the listing's `pagination.total` (which replaces `total` and feeds `Math.min(total - offset, increment)`), and the l2s stock `quantity` (used by both the adapter and the older service).
- UniqloDiscovery.GetProducts: the source never stops when the reported totals keep growing while the limit is falsy. In that case the model requires a ghost bound on the total reported for every possible request, not only for the requests the crawl issues. Its contract therefore says nothing about a listing whose reported totals, over all requests, have no bound, even one on which the source would stop.
- LegacyUniqloService.MapStocks: the quantity is an integer. `parseInt` of a fractional or non-numeric quantity is not modelled.
- `getStoreId` (a database query) is the `storeId` parameter of `GetItemData`. Its failure, and `console.log`, are not modelled.
- LegacyUniqloService.GetItemData: a failed request and a body without `result` are the one `RequestFailed` error.
- The `UniqloUS` adapter object and the `StoreAdapter` interface are not modelled: they only bundle the three functions. `ProductPrice.productUrl` is in the interface but is never set by this adapter, so the records leave it out.
- Strings are sequences of Dafny characters, not UTF-16 code units.
- Property lookups that hit keys of the JavaScript object prototype are not modelled.
- UniqloDetails.JoinVariants sets its three flags once per variant from the options' display flags, instead of inside each push's branch. The values are the same.
- The web application, routes, database schemas, media store, the change-detection (diff) engine and the adapter registry are not part of this model.
