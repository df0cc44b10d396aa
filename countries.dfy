/**
 The country directory: `CountryService` over the countries table, which is
 held here as a sequence in storage order.
 */
module Countries {
  import opened Common

  /** A stored country. A null name never reaches storage. */
  datatype Country = Country(CountryID: Guid, CountryName: string)

  /** The view of a country handed to callers. */
  datatype CountryResponse = CountryResponse(CountryId: Guid, CountryName: string)

  /** The request to add a country. */
  datatype CountryAddRequest = CountryAddRequest(CountryName: Option<string>)

  /** `Country.ToCountryResponse`: copies identifier and name. */
  function ToCountryResponse(c: Country): (r: CountryResponse)
    ensures r.CountryId == c.CountryID && r.CountryName == c.CountryName
  {
    CountryResponse(c.CountryID, c.CountryName)
  }

  /** The identifiers of `cs`, in order. */
  function CountryIds(cs: seq<Country>): (ids: seq<Guid>)
    ensures |ids| == |cs| && forall i :: 0 <= i < |cs| ==> ids[i] == cs[i].CountryID
  {
    if cs == [] then [] else [cs[0].CountryID] + CountryIds(cs[1..])
  }

  /** The number of stored countries named exactly `name` (case-sensitive). */
  function CountNamed(cs: seq<Country>, name: string): (n: nat)
    ensures n == 0 <==> forall i :: 0 <= i < |cs| ==> cs[i].CountryName != name
  {
    if cs == [] then 0
    else (if cs[0].CountryName == name then 1 else 0) + CountNamed(cs[1..], name)
  }

  /** No two stored countries share a name or an identifier, and no identifier
      is `Empty`. */
  ghost predicate CountriesWellFormed(cs: seq<Country>) {
    && (forall i, j :: 0 <= i < j < |cs| ==> cs[i].CountryName != cs[j].CountryName)
    && (forall i, j :: 0 <= i < j < |cs| ==> cs[i].CountryID != cs[j].CountryID)
    && (forall i :: 0 <= i < |cs| ==> cs[i].CountryID != Empty)
  }

  class CountryService {
    var countries: seq<Country>

    ghost predicate Valid()
      reads this
    {
      CountriesWellFormed(countries)
    }

    constructor ()
      ensures Valid() && countries == []
    {
      countries := [];
    }

    /** `AddCountry`: rejects a null request, a null name and a name already
        stored; otherwise stores one new country under a fresh identifier. */
    method AddCountry(request: Option<CountryAddRequest>) returns (r: Result<CountryResponse>)
      requires Valid()
      modifies this
      ensures Valid()
      ensures request.None? ==> r == Err(ArgumentNullException) && countries == old(countries)
      ensures request.Some? && request.value.CountryName.None? ==>
        r == Err(ArgumentException) && countries == old(countries)
      ensures request.Some? && request.value.CountryName.Some? &&
              (exists i :: 0 <= i < |old(countries)| && old(countries)[i].CountryName == request.value.CountryName.value) ==>
        r == Err(ArgumentException) && countries == old(countries)
      ensures r.Ok? ==>
        && request.Some? && request.value.CountryName.Some?
        && r.value.CountryName == request.value.CountryName.value
        && r.value.CountryId != Empty && r.value.CountryId !in CountryIds(old(countries))
        && countries == old(countries) + [Country(r.value.CountryId, r.value.CountryName)]
        && r.value in GetAllCountries()
        && GetCountryByCountryID(Some(r.value.CountryId)) == Some(r.value)
      ensures request.Some? && request.value.CountryName.Some? &&
              (forall i :: 0 <= i < |old(countries)| ==> old(countries)[i].CountryName != request.value.CountryName.value) ==>
        r.Ok?
    {
      if request.None? {
        return Err(ArgumentNullException);
      }
      if request.value.CountryName.None? {
        return Err(ArgumentException);
      }
      var name := request.value.CountryName.value;
      if CountNamed(countries, name) > 0 {
        return Err(ArgumentException);
      }
      var used := CountryIds(countries);
      assert FreshGuid(used) != Empty && FreshGuid(used) !in used;
      var id :| id != Empty && id !in used;
      var country := Country(id, name);
      countries := countries + [country];
      r := Ok(ToCountryResponse(country));
      assert countries[|countries| - 1] == country;
    }

    /** `GetAllCountries`: one view per stored country, in storage order. */
    function GetAllCountries(): (r: seq<CountryResponse>)
      reads this
      ensures |r| == |countries|
      ensures forall i :: 0 <= i < |countries| ==>
        r[i].CountryId == countries[i].CountryID && r[i].CountryName == countries[i].CountryName
    {
      seq(|countries|, i requires 0 <= i < |countries| reads this => ToCountryResponse(countries[i]))
    }

    /** `GetCountryByCountryID`: null for a null identifier or one that no
        stored country has; otherwise the first stored country with it. */
    function GetCountryByCountryID(id: Option<Guid>): (r: Option<CountryResponse>)
      reads this
      ensures r.None? <==> id.None? || forall i :: 0 <= i < |countries| ==> countries[i].CountryID != id.value
      ensures r.Some? ==> exists i :: 0 <= i < |countries| && countries[i].CountryID == id.value &&
                                      r.value == ToCountryResponse(countries[i]) &&
                                      forall j :: 0 <= j < i ==> countries[j].CountryID != id.value
    {
      if id.None? then None else FirstWithId(countries, id.value)
    }
  }

  /** `FirstOrDefault` by identifier, mapped to its view. */
  function FirstWithId(cs: seq<Country>, id: Guid): (r: Option<CountryResponse>)
    ensures r.None? <==> forall i :: 0 <= i < |cs| ==> cs[i].CountryID != id
    ensures r.Some? ==> exists i :: 0 <= i < |cs| && cs[i].CountryID == id &&
                                    r.value == ToCountryResponse(cs[i]) &&
                                    forall j :: 0 <= j < i ==> cs[j].CountryID != id
  {
    if cs == [] then None
    else if cs[0].CountryID == id then Some(ToCountryResponse(cs[0]))
    else
      var r := FirstWithId(cs[1..], id);
      assert r.Some? ==> exists i :: 0 <= i < |cs| && cs[i].CountryID == id &&
                                     r.value == ToCountryResponse(cs[i]) &&
                                     forall j :: 0 <= j < i ==> cs[j].CountryID != id by {
        if r.Some? {
          var i :| 0 <= i < |cs[1..]| && cs[1..][i].CountryID == id && r.value == ToCountryResponse(cs[1..][i]) &&
                   forall j :: 0 <= j < i ==> cs[1..][j].CountryID != id;
          assert cs[i + 1] == cs[1..][i];
          forall j | 0 <= j < i + 1 ensures cs[j].CountryID != id {
            if j > 0 { assert cs[j] == cs[1..][j - 1]; }
          }
        }
      }
      r
  }
}
