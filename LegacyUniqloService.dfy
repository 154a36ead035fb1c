/** The older Uniqlo service (`getItemData`): extract the product id from a
    URL, read the l2s response and map each stock entry to a flat record,
    pairing entries with variants by position. */
module LegacyUniqloService {
  import opened Results
  import opened UniqloApi
  import opened ProductCodePattern

  /** `result.{ stocks, prices, l2s }` of the price endpoint, unvalidated.
      `stocks` lists the object's entries in `Object.keys` order. */
  datatype LegacyResult = LegacyResult(stocks: seq<(string, StockEntry)>, prices: map<string, PriceEntry>, l2s: seq<L2Variant>)

  /** The price endpoint for a product id; None when the request fails or
      its body has no `result` to destructure. */
  type PriceSource = string -> Option<LegacyResult>

  /** `dollarsToCents(value.toString())`, whose code is not part of this model. */
  type ToCents = real -> int

  /** One output row (`ItemData`). */
  datatype ItemData = ItemData(storeId: int, style: string, size: string, priceInCents: int, inStock: bool, stock: int)

  /** Stock entry `k` can be mapped: `l2s[k]` exists and `prices[key]` exists. */
  predicate Mappable(data: LegacyResult, k: nat)
    requires k < |data.stocks|
  {
    k < |data.l2s| && data.stocks[k].0 in data.prices
  }

  /** `item` is the record for stock entry `k`: the store id, the color and
      size display codes of the variant at the same position `k`, the
      quantity as `stock`, the price of the entry's key in cents, and
      `in_stock` exactly when `stock > 0`. */
  predicate DescribesEntry(item: ItemData, storeId: int, data: LegacyResult, k: nat, toCents: ToCents)
    requires k < |data.stocks| && Mappable(data, k)
  {
    item.storeId == storeId &&
    item.style == data.l2s[k].color.displayCode &&
    item.size == data.l2s[k].size.displayCode &&
    item.stock == data.stocks[k].1.quantity &&
    (item.inStock <==> item.stock > 0) &&
    item.priceInCents == toCents(data.prices[data.stocks[k].0].baseValue)
  }

  /** The error that entry `k` raises when it cannot be mapped: reading
      `l2s[k].color` comes before reading `prices[key].base`. */
  function EntryError(data: LegacyResult, k: nat): Error
    requires k < |data.stocks|
  {
    if k >= |data.l2s| then MissingVariantAt(k) else MissingPriceFor(data.stocks[k].0)
  }

  /** The `Object.keys(stocks).map((key, index) => … push …)` loop. */
  method MapStocks(storeId: int, data: LegacyResult, toCents: ToCents) returns (r: Result<seq<ItemData>, Error>)
    ensures r.Ok? <==> forall k :: 0 <= k < |data.stocks| ==> Mappable(data, k)
    ensures r.Ok? ==> |r.value| == |data.stocks|
    ensures r.Ok? ==> forall k :: 0 <= k < |data.stocks| ==> DescribesEntry(r.value[k], storeId, data, k, toCents)
    ensures r.Err? ==> exists d :: 0 <= d < |data.stocks| && !Mappable(data, d) && r.error == EntryError(data, d) &&
                                   forall k :: 0 <= k < d ==> Mappable(data, k)
  {
    var itemData: seq<ItemData> := [];
    for index := 0 to |data.stocks|
      invariant |itemData| == index
      invariant forall k :: 0 <= k < index ==> Mappable(data, k) && DescribesEntry(itemData[k], storeId, data, k, toCents)
    {
      var key := data.stocks[index].0;
      if index >= |data.l2s| {
        assert !Mappable(data, index) && EntryError(data, index) == MissingVariantAt(index);
        return Err(MissingVariantAt(index));
      }
      var style := data.l2s[index].color.displayCode;
      var size := data.l2s[index].size.displayCode;
      var stock := data.stocks[index].1.quantity;
      if key !in data.prices {
        assert !Mappable(data, index) && EntryError(data, index) == MissingPriceFor(key);
        return Err(MissingPriceFor(key));
      }
      var price := data.prices[key].baseValue;
      itemData := itemData + [ItemData(storeId, style, size, toCents(price), stock > 0, stock)];
    }
    return Ok(itemData);
  }

  /** `getItemData(url)`, with the store id and the price endpoint as parameters. */
  method GetItemData(url: string, storeId: int, fetchPrices: PriceSource, toCents: ToCents) returns (r: Result<seq<ItemData>, Error>)
    ensures FirstMatch(url).None? ==> r == Err(NoCodeInUrl)
    ensures FirstMatch(url).Some? && fetchPrices(FirstMatch(url).value).None? ==> r == Err(RequestFailed)
    ensures r.Ok? <==> FirstMatch(url).Some? && fetchPrices(FirstMatch(url).value).Some? &&
                       var data := fetchPrices(FirstMatch(url).value).value;
                       forall k :: 0 <= k < |data.stocks| ==> Mappable(data, k)
    ensures r.Ok? ==> var data := fetchPrices(FirstMatch(url).value).value;
                      |r.value| == |data.stocks| &&
                      forall k :: 0 <= k < |data.stocks| ==> DescribesEntry(r.value[k], storeId, data, k, toCents)
    ensures r.Ok? ==> forall k :: 0 <= k < |r.value| ==> r.value[k].storeId == storeId
    ensures r.Err? && FirstMatch(url).Some? && fetchPrices(FirstMatch(url).value).Some? ==>
              var data := fetchPrices(FirstMatch(url).value).value;
              exists d :: 0 <= d < |data.stocks| && !Mappable(data, d) && r.error == EntryError(data, d) &&
                          forall k :: 0 <= k < d ==> Mappable(data, k)
  {
    var productId := FirstMatch(url);
    if productId.None? {
      return Err(NoCodeInUrl);
    }
    var response := fetchPrices(productId.value);
    if response.None? {
      return Err(RequestFailed);
    }
    r := MapStocks(storeId, response.value, toCents);
  }
}
