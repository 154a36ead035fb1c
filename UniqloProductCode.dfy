/** `getProductCode` of the Uniqlo US adapter: extract the product code from
    a user-supplied URL and confirm with the details endpoint that it exists. */
module UniqloProductCode {
  import opened Results
  import opened UniqloApi
  import opened ProductCodePattern

  function GetProductCode(url: string, fetchDetails: DetailsSource): (r: Result<string, Error>)
    ensures r.Ok? <==> FirstMatch(url).Some? && Accepted(fetchDetails(FirstMatch(url).value))
    ensures r.Ok? ==> IsProductCode(r.value) && |r.value| == 11 && r.value[7] == '-'
    ensures r.Ok? ==> exists i: nat :: MatchesAt(url, i) && url[i..i + 11] == r.value && forall j :: 0 <= j < i ==> !MatchesAt(url, j)
    ensures r.Err? ==> r.error == ProductCodeUnresolved(url) || r.error == SchemaMismatch
    ensures r == Err(SchemaMismatch) <==>
      FirstMatch(url).Some? && fetchDetails(FirstMatch(url).value).httpStatus == 200 && fetchDetails(FirstMatch(url).value).body.None?
  {
    match FirstMatch(url)
    case None => Err(ProductCodeUnresolved(url))
    case Some(code) =>
      match Validated(fetchDetails(code), ProductCodeUnresolved(url), ProductCodeUnresolved(url))
      case Err(e) => Err(e)
      case Ok(_) => Ok(code)
  }
}
