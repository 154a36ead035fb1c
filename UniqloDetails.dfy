/** `getProductDetails` of the Uniqlo US adapter: join the l2s variants with
    their stocks and prices, build each variant's attribute list, and drop
    out-of-stock variants that lack a dimension the product uses. */
module UniqloDetails {
  import opened Results
  import opened Sequences
  import opened UniqloApi
  import opened AdapterTypes

  /** `toTitleCase` and `dollarsToCents(value.toString())`, whose code is not
      part of this model. */
  type TitleCase = string -> string
  type ToCents = real -> int

  const ColorName: string := "Color"
  const SizeName: string := "Size"
  const LengthName: string := "Length"

  // ---------------------------------------------------------------------
  // Option lookup: `options.find((o) => o.code === code)`

  function FindOptionFrom(options: seq<DetailOption>, code: string, i: nat): (r: Option<nat>)
    requires i <= |options|
    ensures r.Some? ==> i <= r.value < |options| && options[r.value].code == code
    ensures r.Some? ==> forall j :: i <= j < r.value ==> options[j].code != code
    ensures r.None? ==> forall j :: i <= j < |options| ==> options[j].code != code
    decreases |options| - i
  {
    if i == |options| then None
    else if options[i].code == code then Some(i)
    else FindOptionFrom(options, code, i + 1)
  }

  /** The first option with the given code, if any. */
  function FindOption(options: seq<DetailOption>, code: string): (r: Option<DetailOption>)
    ensures r.None? <==> forall j :: 0 <= j < |options| ==> options[j].code != code
    ensures r.Some? ==> exists k :: 0 <= k < |options| && options[k] == r.value && r.value.code == code &&
                                   forall j :: 0 <= j < k ==> options[j].code != code
  {
    match FindOptionFrom(options, code, 0)
    case None => None
    case Some(k) => Some(options[k])
  }

  // ---------------------------------------------------------------------
  // Attribute lists

  /** `attributes.some((a) => a.name === name)`. */
  predicate HasAttribute(attrs: seq<VariantAttribute>, name: string) {
    exists k :: 0 <= k < |attrs| && attrs[k].name == name
  }

  /** The position of a dimension in the fixed order Color, Size, Length. */
  function DimensionRank(name: string): nat {
    if name == ColorName then 0 else if name == SizeName then 1 else if name == LengthName then 2 else 3
  }

  lemma DimensionNamesDistinct()
    ensures ColorName != SizeName && ColorName != LengthName && SizeName != LengthName
    ensures DimensionRank(ColorName) == 0 && DimensionRank(SizeName) == 1 && DimensionRank(LengthName) == 2
  {
  }

  /** Names drawn from Color, Size, Length, in that order, none repeated. */
  predicate CanonicalAttributes(attrs: seq<VariantAttribute>) {
    (forall k :: 0 <= k < |attrs| ==> DimensionRank(attrs[k].name) < 3) &&
    (forall i, j :: 0 <= i < j < |attrs| ==> DimensionRank(attrs[i].name) < DimensionRank(attrs[j].name))
  }

  /** `attributes.push(a)` when `flag` is set. */
  function PushIf(attrs: seq<VariantAttribute>, flag: bool, a: VariantAttribute): (r: seq<VariantAttribute>)
    ensures |r| == |attrs| + (if flag then 1 else 0)
    ensures forall k :: 0 <= k < |attrs| ==> r[k] == attrs[k]
    ensures flag ==> r[|attrs|] == a
  {
    if flag then attrs + [a] else attrs
  }

  /** Pushing `a` adds `a.name` to the names present and nothing else. */
  lemma PushIfHas(attrs: seq<VariantAttribute>, flag: bool, a: VariantAttribute, n: string)
    ensures HasAttribute(PushIf(attrs, flag, a), n) <==> HasAttribute(attrs, n) || (flag && a.name == n)
  {
    var r := PushIf(attrs, flag, a);
    if HasAttribute(r, n) && !HasAttribute(attrs, n) {
      var k :| 0 <= k < |r| && r[k].name == n;
      assert k == |attrs|;
    }
  }

  /** Pushing a dimension ranked after every one present keeps the order. */
  lemma PushIfCanonical(attrs: seq<VariantAttribute>, flag: bool, a: VariantAttribute)
    requires CanonicalAttributes(attrs) && DimensionRank(a.name) < 3
    requires forall k :: 0 <= k < |attrs| ==> DimensionRank(attrs[k].name) < DimensionRank(a.name)
    ensures CanonicalAttributes(PushIf(attrs, flag, a))
  {
  }

  /** The three conditional pushes of a Color, a Size and a Length attribute. */
  lemma {:induction false} ThreePushes(fc: bool, fs: bool, fl: bool, ca: VariantAttribute, sa: VariantAttribute, la: VariantAttribute)
    requires ca.name == ColorName && sa.name == SizeName && la.name == LengthName
    ensures var attrs := PushIf(PushIf(PushIf([], fc, ca), fs, sa), fl, la);
      CanonicalAttributes(attrs) && |attrs| <= 3 &&
      (HasAttribute(attrs, ColorName) <==> fc) &&
      (HasAttribute(attrs, SizeName) <==> fs) &&
      (HasAttribute(attrs, LengthName) <==> fl) &&
      forall k :: 0 <= k < |attrs| ==> attrs[k] == ca || attrs[k] == sa || attrs[k] == la
  {
    DimensionNamesDistinct();
    var a1 := PushIf([], fc, ca);
    var a2 := PushIf(a1, fs, sa);
    var a3 := PushIf(a2, fl, la);
    PushIfCanonical([], fc, ca);
    PushIfCanonical(a1, fs, sa);
    PushIfCanonical(a2, fl, la);
    PushIfHas([], fc, ca, ColorName);
    PushIfHas(a1, fs, sa, ColorName);
    PushIfHas(a2, fl, la, ColorName);
    PushIfHas([], fc, ca, SizeName);
    PushIfHas(a1, fs, sa, SizeName);
    PushIfHas(a2, fl, la, SizeName);
    PushIfHas([], fc, ca, LengthName);
    PushIfHas(a1, fs, sa, LengthName);
    PushIfHas(a2, fl, la, LengthName);
  }

  /** The attribute list of a variant whose color, size and pld options are
      `color`, `size` and `pld`, as the three conditional pushes build it. */
  function Attributes(color: DetailOption, size: DetailOption, pld: DetailOption, titleCase: TitleCase): (attrs: seq<VariantAttribute>)
    ensures CanonicalAttributes(attrs) && |attrs| <= 3
    ensures HasAttribute(attrs, ColorName) <==> color.showFlag
    ensures HasAttribute(attrs, SizeName) <==> size.showFlag
    ensures HasAttribute(attrs, LengthName) <==> pld.showFlag
    ensures forall k :: 0 <= k < |attrs| ==>
              attrs[k] == VariantAttribute(ColorName, titleCase(color.displayCode + " " + color.name)) ||
              attrs[k] == VariantAttribute(SizeName, size.name) ||
              attrs[k] == VariantAttribute(LengthName, pld.name)
  {
    var ca := VariantAttribute(ColorName, titleCase(color.displayCode + " " + color.name));
    var sa := VariantAttribute(SizeName, size.name);
    var la := VariantAttribute(LengthName, pld.name);
    ThreePushes(color.showFlag, size.showFlag, pld.showFlag, ca, sa, la);
    PushIf(PushIf(PushIf([], color.showFlag, ca), size.showFlag, sa), pld.showFlag, la)
  }

  // ---------------------------------------------------------------------
  // The join of one variant

  /** `stocks[v.l2Id]` and `prices[v.l2Id]` both exist. */
  predicate HasEntries(v: L2Variant, data: L2sResult) {
    v.l2Id in data.stocks && v.l2Id in data.prices
  }

  /** The variant's color, size and pld codes are all in the details options. */
  predicate OptionsKnown(v: L2Variant, details: DetailsResult) {
    FindOption(details.colors, v.color.code).Some? &&
    FindOption(details.sizes, v.size.code).Some? &&
    FindOption(details.plds, v.pld.code).Some?
  }

  /** The record built for a variant that has both entries and known options. */
  function PriceOf(v: L2Variant, data: L2sResult, details: DetailsResult, titleCase: TitleCase, toCents: ToCents): (p: ProductPrice)
    requires HasEntries(v, data) && OptionsKnown(v, details)
    ensures CanonicalAttributes(p.attributes)
    ensures p.inStock <==> data.stocks[v.l2Id].quantity > 0
    ensures p.priceInCents == toCents(data.prices[v.l2Id].baseValue)
    ensures HasAttribute(p.attributes, ColorName) <==> FindOption(details.colors, v.color.code).value.showFlag
    ensures HasAttribute(p.attributes, SizeName) <==> FindOption(details.sizes, v.size.code).value.showFlag
    ensures HasAttribute(p.attributes, LengthName) <==> FindOption(details.plds, v.pld.code).value.showFlag
  {
    ProductPrice(
      Attributes(FindOption(details.colors, v.color.code).value,
                 FindOption(details.sizes, v.size.code).value,
                 FindOption(details.plds, v.pld.code).value, titleCase),
      toCents(data.prices[v.l2Id].baseValue),
      data.stocks[v.l2Id].quantity > 0)
  }

  /** The variants that have both entries, in l2s order. */
  function Joinable(vs: seq<L2Variant>, data: L2sResult): seq<L2Variant> {
    Filter(vs, (v: L2Variant) => HasEntries(v, data))
  }

  /** The forEach over the variants as a function: skip a variant that lacks
      an entry, throw for one whose options are unknown, build the record
      otherwise. */
  function JoinAll(vs: seq<L2Variant>, data: L2sResult, details: DetailsResult, titleCase: TitleCase, toCents: ToCents)
    : (r: Result<seq<ProductPrice>, Error>)
    ensures r.Ok? <==> forall k :: 0 <= k < |vs| && HasEntries(vs[k], data) ==> OptionsKnown(vs[k], details)
    ensures r.Err? ==> r.error == UnknownOption
  {
    if vs == [] then Ok([])
    else
      var v := vs[0];
      var rest := JoinAll(vs[1..], data, details, titleCase, toCents);
      assert forall k :: 1 <= k < |vs| ==> vs[k] == vs[1..][k - 1];
      if !HasEntries(v, data) then rest
      else if !OptionsKnown(v, details) then Err(UnknownOption)
      else if rest.Err? then rest
      else Ok([PriceOf(v, data, details, titleCase, toCents)] + rest.value)
  }

  /** `ps` holds, position by position, the records built for `js`. */
  ghost predicate RecordsOf(ps: seq<ProductPrice>, js: seq<L2Variant>, data: L2sResult, details: DetailsResult,
                            titleCase: TitleCase, toCents: ToCents) {
    |ps| == |js| &&
    forall k :: 0 <= k < |ps| ==>
      HasEntries(js[k], data) && OptionsKnown(js[k], details) &&
      ps[k] == PriceOf(js[k], data, details, titleCase, toCents)
  }

  lemma RecordsCons(ps: seq<ProductPrice>, js: seq<L2Variant>, v: L2Variant, data: L2sResult, details: DetailsResult,
                    titleCase: TitleCase, toCents: ToCents)
    requires RecordsOf(ps, js, data, details, titleCase, toCents)
    requires HasEntries(v, data) && OptionsKnown(v, details)
    ensures RecordsOf([PriceOf(v, data, details, titleCase, toCents)] + ps, [v] + js, data, details, titleCase, toCents)
  {
    var p := PriceOf(v, data, details, titleCase, toCents);
    forall k | 0 < k < |ps| + 1
      ensures ([p] + ps)[k] == PriceOf(([v] + js)[k], data, details, titleCase, toCents)
    {
      assert ([v] + js)[k] == js[k - 1];
    }
  }

  /** One step of the join: what the first variant contributes. */
  lemma JoinAllHead(vs: seq<L2Variant>, data: L2sResult, details: DetailsResult, titleCase: TitleCase, toCents: ToCents)
    requires vs != [] && JoinAll(vs, data, details, titleCase, toCents).Ok?
    ensures JoinAll(vs[1..], data, details, titleCase, toCents).Ok?
    ensures HasEntries(vs[0], data) ==>
      OptionsKnown(vs[0], details) &&
      JoinAll(vs, data, details, titleCase, toCents).value ==
        [PriceOf(vs[0], data, details, titleCase, toCents)] + JoinAll(vs[1..], data, details, titleCase, toCents).value
    ensures !HasEntries(vs[0], data) ==>
      JoinAll(vs, data, details, titleCase, toCents) == JoinAll(vs[1..], data, details, titleCase, toCents)
    ensures Joinable(vs, data) == (if HasEntries(vs[0], data) then [vs[0]] else []) + Joinable(vs[1..], data)
  {
  }

  /** A successful join emits one record per variant that has both entries,
      in l2s order, and nothing for the others: skipped, not defaulted. */
  lemma {:induction false} JoinAllRecords(vs: seq<L2Variant>, data: L2sResult, details: DetailsResult, titleCase: TitleCase, toCents: ToCents)
    requires JoinAll(vs, data, details, titleCase, toCents).Ok?
    ensures RecordsOf(JoinAll(vs, data, details, titleCase, toCents).value, Joinable(vs, data), data, details, titleCase, toCents)
  {
    if vs != [] {
      JoinAllHead(vs, data, details, titleCase, toCents);
      JoinAllRecords(vs[1..], data, details, titleCase, toCents);
      var tail := JoinAll(vs[1..], data, details, titleCase, toCents).value;
      var js := Joinable(vs[1..], data);
      if HasEntries(vs[0], data) {
        RecordsCons(tail, js, vs[0], data, details, titleCase, toCents);
        assert Joinable(vs, data) == [vs[0]] + js;
      } else {
        assert Joinable(vs, data) == js;
      }
    }
  }

  // ---------------------------------------------------------------------
  // Used dimensions and the completeness filter

  datatype Dimensions = Dimensions(hasColor: bool, hasSize: bool, hasLength: bool)

  /** Which dimensions some emitted record shows. */
  function UsedDimensions(ps: seq<ProductPrice>): Dimensions {
    Dimensions(
      exists k :: 0 <= k < |ps| && HasAttribute(ps[k].attributes, ColorName),
      exists k :: 0 <= k < |ps| && HasAttribute(ps[k].attributes, SizeName),
      exists k :: 0 <= k < |ps| && HasAttribute(ps[k].attributes, LengthName))
  }

  /** `isMissingAttribute`. */
  predicate IsMissingAttribute(p: ProductPrice, used: Dimensions) {
    (used.hasColor && !HasAttribute(p.attributes, ColorName)) ||
    (used.hasSize && !HasAttribute(p.attributes, SizeName)) ||
    (used.hasLength && !HasAttribute(p.attributes, LengthName))
  }

  predicate Keep(p: ProductPrice, used: Dimensions) {
    !IsMissingAttribute(p, used) || p.inStock
  }

  function FilterComplete(ps: seq<ProductPrice>, used: Dimensions): seq<ProductPrice> {
    Filter(ps, (p: ProductPrice) => Keep(p, used))
  }

  function InStockOnly(ps: seq<ProductPrice>): seq<ProductPrice> {
    Filter(ps, (p: ProductPrice) => p.inStock)
  }

  /** `filteredPrices.map(({ attributes }) => attributes)`. */
  function AttributeLists(ps: seq<ProductPrice>): (lists: seq<seq<VariantAttribute>>)
    ensures |lists| == |ps| && forall k :: 0 <= k < |ps| ==> lists[k] == ps[k].attributes
  {
    seq(|ps|, k requires 0 <= k < |ps| => ps[k].attributes)
  }

  /** The completeness filter keeps exactly the records that miss no used
      dimension or are in stock, in their original order, and loses no
      in-stock record. */
  lemma CompletenessFilter(ps: seq<ProductPrice>, used: Dimensions)
    ensures forall p :: p in FilterComplete(ps, used) <==> p in ps && (!IsMissingAttribute(p, used) || p.inStock)
    ensures IsSubsequence(FilterComplete(ps, used), ps)
    ensures InStockOnly(FilterComplete(ps, used)) == InStockOnly(ps)
    ensures forall p :: multiset(FilterComplete(ps, used))[p] == if Keep(p, used) then multiset(ps)[p] else 0
  {
    FilterCounts(ps, (p: ProductPrice) => Keep(p, used));
    forall p ensures p in FilterComplete(ps, used) <==> p in ps && (!IsMissingAttribute(p, used) || p.inStock) {
      FilterMembership(ps, (p: ProductPrice) => Keep(p, used), p);
    }
    FilterIsSubsequence(ps, (p: ProductPrice) => Keep(p, used));
    FilterOfFilter(ps, (p: ProductPrice) => Keep(p, used), (p: ProductPrice) => p.inStock);
  }

  /** Which dimensions a used-dimension scan of `ps` plus one more record finds. */
  lemma UsedDimensionsSnoc(ps: seq<ProductPrice>, p: ProductPrice)
    ensures UsedDimensions(ps + [p]) ==
      Dimensions(UsedDimensions(ps).hasColor || HasAttribute(p.attributes, ColorName),
                 UsedDimensions(ps).hasSize || HasAttribute(p.attributes, SizeName),
                 UsedDimensions(ps).hasLength || HasAttribute(p.attributes, LengthName))
  {
    var qs := ps + [p];
    assert qs[|ps|] == p;
    assert forall k :: 0 <= k < |ps| ==> qs[k] == ps[k];
  }

  /** A color, size or pld option that is found and shown. */
  predicate Shown(found: Option<DetailOption>) {
    found.Some? && found.value.showFlag
  }

  /** A dimension is used exactly when some joined variant's option for it
      has its display flag set. */
  lemma UsedMeansShown(vs: seq<L2Variant>, data: L2sResult, details: DetailsResult, titleCase: TitleCase, toCents: ToCents)
    requires JoinAll(vs, data, details, titleCase, toCents).Ok?
    ensures var used := UsedDimensions(JoinAll(vs, data, details, titleCase, toCents).value);
      var js := Joinable(vs, data);
      (used.hasColor <==> exists k :: 0 <= k < |js| && Shown(FindOption(details.colors, js[k].color.code))) &&
      (used.hasSize <==> exists k :: 0 <= k < |js| && Shown(FindOption(details.sizes, js[k].size.code))) &&
      (used.hasLength <==> exists k :: 0 <= k < |js| && Shown(FindOption(details.plds, js[k].pld.code)))
  {
    JoinAllRecords(vs, data, details, titleCase, toCents);
  }

  /** `isMissingAttribute` for a product that uses Color and Size but not
      Length: a variant without a Size is dropped when out of stock and kept
      when in stock. */
  lemma MissingSizeKeptOnlyInStock(ps: seq<ProductPrice>, p: ProductPrice)
    requires p in ps && !HasAttribute(p.attributes, SizeName)
    ensures p in FilterComplete(ps, Dimensions(true, true, false)) <==> p.inStock
  {
    CompletenessFilter(ps, Dimensions(true, true, false));
  }

  // ---------------------------------------------------------------------
  // The whole call

  /** `getProductDetails` once both responses are in, as a function: the
      specification the method is proved against. */
  function DetailsOutcome(productCode: string, l2sReply: Reply<L2sResult>, detailsReply: Reply<DetailsResult>,
                          titleCase: TitleCase, toCents: ToCents): (r: Result<ProductDetails, Error>)
    ensures l2sReply.httpStatus != 200 || detailsReply.httpStatus != 200 ==>
              r == Err(DetailsHttpStatus(productCode, l2sReply.httpStatus, detailsReply.httpStatus))
    ensures l2sReply.httpStatus == 200 && detailsReply.httpStatus == 200 && (l2sReply.body.None? || detailsReply.body.None?) ==>
              r == Err(SchemaMismatch)
    ensures l2sReply.httpStatus == 200 && detailsReply.httpStatus == 200 && l2sReply.body.Some? && detailsReply.body.Some? &&
            (l2sReply.body.value.status == StatusNok || detailsReply.body.value.status == StatusNok) ==>
              r == Err(DetailsNok(productCode))
    ensures Accepted(l2sReply) && Accepted(detailsReply) &&
            JoinAll(l2sReply.body.value.result.l2s, l2sReply.body.value.result, detailsReply.body.value.result, titleCase, toCents).Err? ==>
              r == Err(UnknownOption)
    ensures r.Ok? <==> (Accepted(l2sReply) && Accepted(detailsReply) &&
              JoinAll(l2sReply.body.value.result.l2s, l2sReply.body.value.result, detailsReply.body.value.result, titleCase, toCents).Ok?)
    ensures r.Ok? ==> r.value.name == detailsReply.body.value.result.name
    ensures r.Ok? ==> (|r.value.variants| == |r.value.prices| &&
              forall k :: 0 <= k < |r.value.prices| ==> r.value.variants[k] == r.value.prices[k].attributes)
  {
    if l2sReply.httpStatus != 200 || detailsReply.httpStatus != 200 then
      Err(DetailsHttpStatus(productCode, l2sReply.httpStatus, detailsReply.httpStatus))
    else if l2sReply.body.None? || detailsReply.body.None? then Err(SchemaMismatch)
    else if l2sReply.body.value.status == StatusNok || detailsReply.body.value.status == StatusNok then
      Err(DetailsNok(productCode))
    else
      var data := l2sReply.body.value.result;
      var details := detailsReply.body.value.result;
      match JoinAll(data.l2s, data, details, titleCase, toCents)
      case Err(e) => Err(e)
      case Ok(ps) =>
        var kept := FilterComplete(ps, UsedDimensions(ps));
        Ok(ProductDetails(details.name, kept, AttributeLists(kept)))
  }

  /** What a successful call returns: an order-preserving subsequence of the
      joined records, holding exactly those that miss no used dimension or
      are in stock, losing no in-stock record, each with an attribute list in
      the order Color, Size, Length. */
  lemma DetailsKeepPolicy(productCode: string, l2sReply: Reply<L2sResult>, detailsReply: Reply<DetailsResult>,
                          titleCase: TitleCase, toCents: ToCents)
    requires DetailsOutcome(productCode, l2sReply, detailsReply, titleCase, toCents).Ok?
    ensures var data := l2sReply.body.value.result;
      var ps := JoinAll(data.l2s, data, detailsReply.body.value.result, titleCase, toCents).value;
      var used := UsedDimensions(ps);
      var out := DetailsOutcome(productCode, l2sReply, detailsReply, titleCase, toCents).value.prices;
      IsSubsequence(out, ps) &&
      (forall p :: p in out <==> p in ps && (!IsMissingAttribute(p, used) || p.inStock)) &&
      InStockOnly(out) == InStockOnly(ps) &&
      (forall p :: multiset(out)[p] == if Keep(p, used) then multiset(ps)[p] else 0) &&
      (forall k :: 0 <= k < |out| ==> CanonicalAttributes(out[k].attributes))
  {
    var data := l2sReply.body.value.result;
    var details := detailsReply.body.value.result;
    var ps := JoinAll(data.l2s, data, details, titleCase, toCents).value;
    var out := DetailsOutcome(productCode, l2sReply, detailsReply, titleCase, toCents).value.prices;
    assert out == FilterComplete(ps, UsedDimensions(ps));
    CompletenessFilter(ps, UsedDimensions(ps));
    JoinedCanonical(data.l2s, data, details, titleCase, toCents);
    KeptCanonical(ps, UsedDimensions(ps));
  }

  /** Every joined record has its attributes in canonical order. */
  lemma JoinedCanonical(vs: seq<L2Variant>, data: L2sResult, details: DetailsResult, titleCase: TitleCase, toCents: ToCents)
    requires JoinAll(vs, data, details, titleCase, toCents).Ok?
    ensures var ps := JoinAll(vs, data, details, titleCase, toCents).value;
      forall k :: 0 <= k < |ps| ==> CanonicalAttributes(ps[k].attributes)
  {
    JoinAllRecords(vs, data, details, titleCase, toCents);
  }

  /** The filter keeps only records the join built, so their attribute
      lists stay in canonical order. */
  lemma KeptCanonical(ps: seq<ProductPrice>, used: Dimensions)
    requires forall k :: 0 <= k < |ps| ==> CanonicalAttributes(ps[k].attributes)
    ensures forall k :: 0 <= k < |FilterComplete(ps, used)| ==> CanonicalAttributes(FilterComplete(ps, used)[k].attributes)
  {
    var out := FilterComplete(ps, used);
    forall k | 0 <= k < |out| ensures CanonicalAttributes(out[k].attributes) {
      FilterMembership(ps, (p: ProductPrice) => Keep(p, used), out[k]);
      var j :| 0 <= j < |ps| && ps[j] == out[k];
    }
  }

  datatype Joined = Joined(prices: seq<ProductPrice>, used: Dimensions)

  function PrependOk(ps: seq<ProductPrice>, r: Result<seq<ProductPrice>, Error>): Result<seq<ProductPrice>, Error> {
    if r.Ok? then Ok(ps + r.value) else r
  }

  lemma PrependNothing(r: Result<seq<ProductPrice>, Error>)
    ensures PrependOk([], r) == r
  {
    if r.Ok? {
      assert [] + r.value == r.value;
    }
  }

  lemma PrependCons(ps: seq<ProductPrice>, p: ProductPrice, r: Result<seq<ProductPrice>, Error>)
    ensures PrependOk(ps, if r.Ok? then Ok([p] + r.value) else r) == PrependOk(ps + [p], r)
  {
    if r.Ok? {
      assert ps + ([p] + r.value) == ps + [p] + r.value;
    }
  }

  /** The three conditional pushes of one variant's attributes. */
  method VariantAttributes(color: DetailOption, size: DetailOption, pld: DetailOption, titleCase: TitleCase)
    returns (attributes: seq<VariantAttribute>)
    ensures attributes == Attributes(color, size, pld, titleCase)
  {
    attributes := [];
    if color.showFlag {
      attributes := attributes + [VariantAttribute(ColorName, titleCase(color.displayCode + " " + color.name))];
    }
    if size.showFlag {
      attributes := attributes + [VariantAttribute(SizeName, size.name)];
    }
    if pld.showFlag {
      attributes := attributes + [VariantAttribute(LengthName, pld.name)];
    }
  }

  /** The join phase: the forEach that pushes into `productPrices` and sets
      `hasColor`, `hasSize` and `hasLength`. */
  method JoinVariants(data: L2sResult, details: DetailsResult, titleCase: TitleCase, toCents: ToCents)
    returns (r: Result<Joined, Error>)
    ensures r.Ok? <==> JoinAll(data.l2s, data, details, titleCase, toCents).Ok?
    ensures r.Err? ==> r.error == UnknownOption
    ensures r.Ok? ==> r.value.prices == JoinAll(data.l2s, data, details, titleCase, toCents).value
    ensures r.Ok? ==> r.value.used == UsedDimensions(r.value.prices)
  {
    var vs := data.l2s;
    var productPrices: seq<ProductPrice> := [];
    var hasColor, hasSize, hasLength := false, false, false;
    assert vs[0..] == vs;
    PrependNothing(JoinAll(vs, data, details, titleCase, toCents));
    for i := 0 to |vs|
      invariant JoinAll(vs, data, details, titleCase, toCents) == PrependOk(productPrices, JoinAll(vs[i..], data, details, titleCase, toCents))
      invariant Dimensions(hasColor, hasSize, hasLength) == UsedDimensions(productPrices)
    {
      var variant := vs[i];
      assert vs[i..][0] == variant && vs[i..][1..] == vs[i + 1..];
      var stocksEntry, pricesEntry := variant.l2Id in data.stocks, variant.l2Id in data.prices;
      if !pricesEntry || !stocksEntry {
        continue;
      }
      var color := FindOption(details.colors, variant.color.code);
      var size := FindOption(details.sizes, variant.size.code);
      var pld := FindOption(details.plds, variant.pld.code);
      if color.None? || size.None? || pld.None? {
        return Err(UnknownOption);
      }
      var attributes := VariantAttributes(color.value, size.value, pld.value, titleCase);
      hasColor := hasColor || color.value.showFlag;
      hasSize := hasSize || size.value.showFlag;
      hasLength := hasLength || pld.value.showFlag;
      var price := ProductPrice(attributes, toCents(data.prices[variant.l2Id].baseValue), data.stocks[variant.l2Id].quantity > 0);
      assert price == PriceOf(variant, data, details, titleCase, toCents);
      UsedDimensionsSnoc(productPrices, price);
      PrependCons(productPrices, price, JoinAll(vs[i + 1..], data, details, titleCase, toCents));
      productPrices := productPrices + [price];
    }
    assert vs[|vs|..] == [];
    return Ok(Joined(productPrices, Dimensions(hasColor, hasSize, hasLength)));
  }

  /** `getProductDetails(productCode)`, with the two endpoints as parameters. */
  method GetProductDetails(productCode: string, fetchL2s: L2sSource, fetchDetails: DetailsSource,
                           titleCase: TitleCase, toCents: ToCents) returns (r: Result<ProductDetails, Error>)
    ensures r == DetailsOutcome(productCode, fetchL2s(productCode), fetchDetails(productCode), titleCase, toCents)
  {
    var l2sReply, detailsReply := fetchL2s(productCode), fetchDetails(productCode);
    if l2sReply.httpStatus != 200 || detailsReply.httpStatus != 200 {
      return Err(DetailsHttpStatus(productCode, l2sReply.httpStatus, detailsReply.httpStatus));
    }
    if l2sReply.body.None? || detailsReply.body.None? {
      return Err(SchemaMismatch);
    }
    var l2sData, detailsData := l2sReply.body.value, detailsReply.body.value;
    if l2sData.status == StatusNok || detailsData.status == StatusNok {
      return Err(DetailsNok(productCode));
    }
    var joined := JoinVariants(l2sData.result, detailsData.result, titleCase, toCents);
    if joined.Err? {
      return Err(joined.error);
    }
    var filteredPrices := FilterComplete(joined.value.prices, joined.value.used);
    return Ok(ProductDetails(detailsData.result.name, filteredPrices, AttributeLists(filteredPrices)));
  }
}
