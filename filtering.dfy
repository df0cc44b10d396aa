/**
 The filtering half of the query engine: `GetFilteredPersons` keeps the person
 views whose named field contains the search text, ignoring case. A view whose
 field is null or empty is always kept.
 */
module Filtering {
  import opened Common
  import opened Text
  import opened Dto

  /** The search keys the dispatch recognises. */
  datatype FilterField = OnPersonName | OnEmail | OnDateOfBirth | OnGender | OnCountry | OnAddress

  /** The dispatch on the `searchBy` text. The key "CountryID" searches the
      resolved country name, as `GetFilteredPersons` does. */
  function FilterFieldOf(searchBy: string): (f: Option<FilterField>)
    ensures searchBy == "CountryID" ==> f == Some(OnCountry)
    ensures f.None? <==>
      searchBy !in {"PersonName", "Email", "DateOfBirth", "Gender", "CountryID", "Address"}
  {
    if searchBy == "PersonName" then Some(OnPersonName)
    else if searchBy == "Email" then Some(OnEmail)
    else if searchBy == "DateOfBirth" then Some(OnDateOfBirth)
    else if searchBy == "Gender" then Some(OnGender)
    else if searchBy == "CountryID" then Some(OnCountry)
    else if searchBy == "Address" then Some(OnAddress)
    else None
  }

  /** A text field passes when it is null or empty, or contains the search text
      ignoring case: a present, non-empty field passes exactly when some slice
      of it equals the search text ignoring case. */
  function TextMatches(v: Option<string>, searchString: string): (b: bool)
    ensures IsNullOrEmpty(v) ==> b
    ensures searchString == [] ==> b
    ensures !IsNullOrEmpty(v) ==> (b <==> exists i :: MatchesAt(v.value, searchString, i))
  {
    IsNullOrEmpty(v) || ContainsIgnoreCase(v.value, searchString)
  }

  /** Whether view `p` passes the filter on field `f`. A date of birth is
      searched in its rendered text, given by `renderDate`. */
  function Matches(p: PersonResponse, f: FilterField, searchString: string, renderDate: Date -> string): (b: bool)
    ensures searchString == [] ==> b
    ensures f == OnDateOfBirth ==>
      (b <==> p.DateOfBirth.None? || exists i :: MatchesAt(renderDate(p.DateOfBirth.value), searchString, i))
    ensures f == OnCountry ==> (b <==> TextMatches(p.Country, searchString))
  {
    match f
    case OnPersonName => TextMatches(p.PersonName, searchString)
    case OnEmail => TextMatches(p.Email, searchString)
    case OnDateOfBirth => p.DateOfBirth.None? || ContainsIgnoreCase(renderDate(p.DateOfBirth.value), searchString)
    case OnGender => TextMatches(p.Gender, searchString)
    case OnCountry => TextMatches(p.Country, searchString)
    case OnAddress => TextMatches(p.Address, searchString)
  }

  /** `r` can be obtained from `s` by deleting elements. */
  ghost predicate IsSubsequence(r: seq<PersonResponse>, s: seq<PersonResponse>)
    decreases |s|
  {
    r == [] || (s != [] && ((r[0] == s[0] && IsSubsequence(r[1..], s[1..])) || IsSubsequence(r, s[1..])))
  }

  /** LINQ `Where`: the views that pass the filter, in their original order. */
  function Where(s: seq<PersonResponse>, f: FilterField, searchString: string, renderDate: Date -> string)
    : (r: seq<PersonResponse>)
    ensures IsSubsequence(r, s)
    ensures forall x :: x in r <==> x in s && Matches(x, f, searchString, renderDate)
    ensures forall x :: multiset(r)[x] == if Matches(x, f, searchString, renderDate) then multiset(s)[x] else 0
  {
    if s == [] then []
    else
      var rest := Where(s[1..], f, searchString, renderDate);
      assert s == [s[0]] + s[1..];
      if Matches(s[0], f, searchString, renderDate) then
        var r := [s[0]] + rest;
        assert r[1..] == rest;
        r
      else rest
  }

  /** A filter that every view passes returns the list unchanged. */
  lemma {:induction false} WhereKeepsAll(s: seq<PersonResponse>, f: FilterField, searchString: string,
                                         renderDate: Date -> string)
    requires forall x :: x in s ==> Matches(x, f, searchString, renderDate)
    ensures Where(s, f, searchString, renderDate) == s
  {
    if s != [] {
      WhereKeepsAll(s[1..], f, searchString, renderDate);
    }
  }

  /** Filtering twice by the same field and text is filtering once. */
  lemma WhereIdempotent(s: seq<PersonResponse>, f: FilterField, searchString: string, renderDate: Date -> string)
    ensures Where(Where(s, f, searchString, renderDate), f, searchString, renderDate) ==
            Where(s, f, searchString, renderDate)
  {
    WhereKeepsAll(Where(s, f, searchString, renderDate), f, searchString, renderDate);
  }

  /** The filter dispatch of `GetFilteredPersons`, applied to the list of all
      views: a null or empty key or text, or a key the dispatch does not
      recognise, returns the list unchanged; otherwise the views that pass, in
      their original order. */
  function FilterPersons(allPersons: seq<PersonResponse>, searchBy: Option<string>, searchString: Option<string>,
                         renderDate: Date -> string): (r: seq<PersonResponse>)
    ensures IsNullOrEmpty(searchBy) || IsNullOrEmpty(searchString) || FilterFieldOf(searchBy.value).None? ==>
      r == allPersons
    ensures !IsNullOrEmpty(searchBy) && !IsNullOrEmpty(searchString) && FilterFieldOf(searchBy.value).Some? ==>
      && IsSubsequence(r, allPersons)
      && (forall x :: x in r <==>
            x in allPersons && Matches(x, FilterFieldOf(searchBy.value).value, searchString.value, renderDate))
      && (forall x :: multiset(r)[x] ==
            if Matches(x, FilterFieldOf(searchBy.value).value, searchString.value, renderDate)
            then multiset(allPersons)[x] else 0)
    ensures searchBy == Some("CountryID") && !IsNullOrEmpty(searchString) ==>
      forall x :: x in r <==> x in allPersons && TextMatches(x.Country, searchString.value)
  {
    if IsNullOrEmpty(searchBy) || IsNullOrEmpty(searchString) then allPersons
    else
      match FilterFieldOf(searchBy.value)
      case None => allPersons
      case Some(f) => Where(allPersons, f, searchString.value, renderDate)
  }
}
