/**
 The person directory: `PersonsService` over the persons table, held here as a
 sequence in storage order, with the country directory it resolves country
 names through.
 */
module Persons {
  import opened Common
  import opened Dto
  import opened Countries
  import opened Filtering

  /** The identifiers of `ps`, in order. */
  function PersonIds(ps: seq<Person>): (ids: seq<Guid>)
    ensures |ids| == |ps| && forall i :: 0 <= i < |ps| ==> ids[i] == ps[i].PersonID
  {
    if ps == [] then [] else [ps[0].PersonID] + PersonIds(ps[1..])
  }

  /** `FirstOrDefault` by identifier, as a position: the first stored person
      with identifier `id`, if any. */
  function IndexOfId(ps: seq<Person>, id: Guid): (r: Option<nat>)
    ensures r.None? <==> forall i :: 0 <= i < |ps| ==> ps[i].PersonID != id
    ensures r.Some? ==> r.value < |ps| && ps[r.value].PersonID == id &&
                        forall j :: 0 <= j < r.value ==> ps[j].PersonID != id
  {
    if ps == [] then None
    else if ps[0].PersonID == id then Some(0)
    else
      match IndexOfId(ps[1..], id)
      case None => None
      case Some(i) =>
        assert forall j :: 1 <= j < i + 1 ==> ps[j] == ps[1..][j - 1];
        Some(i + 1)
  }

  /** The field assignments of `UpdatePerson`: name, e-mail, country, address
      and newsletter flag come from the request; identifier, date of birth and
      gender stay as stored. */
  function ApplyUpdate(p: Person, u: PersonUpdateRequest): (q: Person)
    ensures q.PersonID == p.PersonID && q.DateOfBirth == p.DateOfBirth && q.Gender == p.Gender
    ensures q.PersonName == u.PersonName && q.Email == u.Email && q.CountryID == u.CountryID
    ensures q.Address == u.Address && q.ReceiveNewLetters == u.ReceiveNewLetters
  {
    p.(PersonName := u.PersonName, Email := u.Email, CountryID := u.CountryID,
       Address := u.Address, ReceiveNewLetters := u.ReceiveNewLetters)
  }

  /** No two stored persons share an identifier, and none is `Empty`. */
  ghost predicate PersonsWellFormed(ps: seq<Person>) {
    && (forall i, j :: 0 <= i < j < |ps| ==> ps[i].PersonID != ps[j].PersonID)
    && (forall i :: 0 <= i < |ps| ==> ps[i].PersonID != Empty)
  }

  /** Appending a person whose identifier is neither `Empty` nor stored keeps
      the identifiers distinct and none of them `Empty`. */
  lemma AppendFresh(ps: seq<Person>, p: Person)
    requires PersonsWellFormed(ps)
    requires p.PersonID != Empty && p.PersonID !in PersonIds(ps)
    ensures PersonsWellFormed(ps + [p])
  {
    var qs := ps + [p];
    forall i, j | 0 <= i < j < |qs| ensures qs[i].PersonID != qs[j].PersonID {
      assert qs[i] == ps[i] && PersonIds(ps)[i] == ps[i].PersonID;
    }
  }

  class PersonsService {
    var persons: seq<Person>
    const countriesService: CountryService

    ghost predicate Valid()
      reads this
    {
      PersonsWellFormed(persons)
    }

    constructor (countryService: CountryService)
      ensures Valid() && persons == [] && countriesService == countryService
    {
      persons := [];
      countriesService := countryService;
    }

    /** `ConvertPersonToPersonResponse`: the person's view with `Country` set
        to the name of the first stored country with the person's `CountryID`,
        or null when the identifier is null or dangling. */
    function ConvertPersonToPersonResponse(p: Person, today: Date): (r: PersonResponse)
      reads countriesService
      ensures r.(Country := None) == ToPersonResponse(p, today)
      ensures r.Country.Some? <==>
        p.CountryID.Some? && exists i :: 0 <= i < |countriesService.countries| &&
                                         countriesService.countries[i].CountryID == p.CountryID.value
      ensures r.Country.Some? ==> exists i :: 0 <= i < |countriesService.countries| &&
                                              countriesService.countries[i].CountryID == p.CountryID.value &&
                                              countriesService.countries[i].CountryName == r.Country.value &&
                                              forall j :: 0 <= j < i ==>
                                                countriesService.countries[j].CountryID != p.CountryID.value
    {
      var country := countriesService.GetCountryByCountryID(p.CountryID);
      ToPersonResponse(p, today).(Country := if country.Some? then Some(country.value.CountryName) else None)
    }

    /** `GetAllPersons`: one view per stored person, in storage order. */
    function GetAllPersons(today: Date): (r: seq<PersonResponse>)
      reads this, countriesService
      ensures |r| == |persons|
      ensures forall i :: 0 <= i < |persons| ==>
        r[i] == ConvertPersonToPersonResponse(persons[i], today) && r[i].PersonID == persons[i].PersonID
    {
      seq(|persons|, i requires 0 <= i < |persons| reads this, countriesService =>
        ConvertPersonToPersonResponse(persons[i], today))
    }

    /** `GetPersonByPersonID`: null for a null identifier or one no stored
        person has; otherwise the view of the first person with it. */
    function GetPersonByPersonID(personID: Option<Guid>, today: Date): (r: Option<PersonResponse>)
      reads this, countriesService
      ensures r.None? <==> personID.None? || forall i :: 0 <= i < |persons| ==> persons[i].PersonID != personID.value
      ensures r.Some? ==> r.value.PersonID == personID.value && r.value in GetAllPersons(today)
    {
      if personID.None? then None
      else
        match IndexOfId(persons, personID.value)
        case None => None
        case Some(i) =>
          assert GetAllPersons(today)[i] == ConvertPersonToPersonResponse(persons[i], today);
          Some(ConvertPersonToPersonResponse(persons[i], today))
    }

    /** `GetFilteredPersons`: the filter applied to the views of all stored
        persons. */
    function GetFilteredPersons(searchBy: Option<string>, searchString: Option<string>, today: Date,
                                renderDate: Date -> string): (r: seq<PersonResponse>)
      reads this, countriesService
      ensures IsNullOrEmpty(searchBy) || IsNullOrEmpty(searchString) || FilterFieldOf(searchBy.value).None? ==>
        r == GetAllPersons(today)
      ensures !IsNullOrEmpty(searchBy) && !IsNullOrEmpty(searchString) && FilterFieldOf(searchBy.value).Some? ==>
        && IsSubsequence(r, GetAllPersons(today))
        && (forall x :: x in r <==>
              x in GetAllPersons(today) && Matches(x, FilterFieldOf(searchBy.value).value, searchString.value, renderDate))
        && (forall x :: multiset(r)[x] ==
              if Matches(x, FilterFieldOf(searchBy.value).value, searchString.value, renderDate)
              then multiset(GetAllPersons(today))[x] else 0)
    {
      FilterPersons(GetAllPersons(today), searchBy, searchString, renderDate)
    }

    /** `AddPerson`: rejects a null request, then an invalid one, before
        touching storage; otherwise stores the request's person under a fresh
        identifier and returns its view. */
    method AddPerson(request: Option<PersonAddRequest>, today: Date) returns (r: Result<PersonResponse>)
      requires Valid()
      modifies this
      ensures Valid()
      ensures request.None? ==> r == Err(ArgumentNullException) && persons == old(persons)
      ensures request.Some? && !ValidAddRequest(request.value) ==>
        r == Err(ArgumentException) && persons == old(persons)
      ensures request.Some? && ValidAddRequest(request.value) ==> r.Ok?
      ensures r.Ok? ==>
        && request.Some?
        && r.value.PersonID != Empty && r.value.PersonID !in PersonIds(old(persons))
        && persons == old(persons) + [AddRequestToPerson(request.value).(PersonID := r.value.PersonID)]
        && r.value == ConvertPersonToPersonResponse(persons[|persons| - 1], today)
        && r.value in GetAllPersons(today)
        && GetPersonByPersonID(Some(r.value.PersonID), today) == Some(r.value)
    {
      if request.None? {
        return Err(ArgumentNullException);
      }
      if !ValidAddRequest(request.value) {
        return Err(ArgumentException);
      }
      var person := AddRequestToPerson(request.value);
      var used := PersonIds(persons);
      assert FreshGuid(used) != Empty && FreshGuid(used) !in used;
      var id :| id != Empty && id !in used;
      person := person.(PersonID := id);
      AppendFresh(persons, person);
      persons := persons + [person];
      r := Ok(ConvertPersonToPersonResponse(person, today));
      LastIsFound(this, today);
      assert r.value == GetAllPersons(today)[|persons| - 1];
    }

    /** `UpdatePerson`: rejects a null request, then an invalid one, then an
        identifier no stored person has (with `ArgumentNullException`);
        otherwise overwrites the mutable fields of the matching person and
        returns its new view. */
    method UpdatePerson(request: Option<PersonUpdateRequest>, today: Date) returns (r: Result<PersonResponse>)
      requires Valid()
      modifies this
      ensures Valid()
      ensures request.None? ==> r == Err(ArgumentNullException) && persons == old(persons)
      ensures request.Some? && !ValidUpdateRequest(request.value) ==>
        r == Err(ArgumentException) && persons == old(persons)
      ensures request.Some? && ValidUpdateRequest(request.value) &&
              IndexOfId(old(persons), request.value.PersonID).None? ==>
        r == Err(ArgumentNullException) && persons == old(persons)
      ensures request.Some? && ValidUpdateRequest(request.value) &&
              IndexOfId(old(persons), request.value.PersonID).Some? ==>
        var i := IndexOfId(old(persons), request.value.PersonID).value;
        && persons == old(persons)[i := ApplyUpdate(old(persons)[i], request.value)]
        && r == Ok(ConvertPersonToPersonResponse(persons[i], today))
        && GetPersonByPersonID(Some(request.value.PersonID), today) == Some(r.value)
    {
      if request.None? {
        return Err(ArgumentNullException);
      }
      if !ValidUpdateRequest(request.value) {
        return Err(ArgumentException);
      }
      var found := IndexOfId(persons, request.value.PersonID);
      if found.None? {
        return Err(ArgumentNullException);
      }
      var i := found.value;
      var updated := ApplyUpdate(persons[i], request.value);
      persons := persons[i := updated];
      r := Ok(ConvertPersonToPersonResponse(updated, today));
      assert persons[i].PersonID == request.value.PersonID;
      assert IndexOfId(persons, request.value.PersonID) == Some(i);
    }

    /** `DeletePerson`: rejects a null identifier; returns false when storage
        holds no person at all; otherwise removes the first person with the
        identifier, failing as `First` does when there is none. */
    method DeletePerson(personID: Option<Guid>) returns (r: Result<bool>)
      requires Valid()
      modifies this
      ensures Valid()
      ensures personID.None? ==> r == Err(ArgumentNullException) && persons == old(persons)
      ensures personID.Some? && old(persons) == [] ==> r == Ok(false) && persons == old(persons)
      ensures personID.Some? && old(persons) != [] && IndexOfId(old(persons), personID.value).None? ==>
        r == Err(InvalidOperationException) && persons == old(persons)
      ensures personID.Some? && IndexOfId(old(persons), personID.value).Some? ==>
        var i := IndexOfId(old(persons), personID.value).value;
        && r == Ok(true)
        && persons == old(persons)[..i] + old(persons)[i + 1..]
        && forall j :: 0 <= j < |persons| ==> persons[j].PersonID != personID.value
    {
      if personID.None? {
        return Err(ArgumentNullException);
      }
      if persons == [] {
        return Ok(false);
      }
      var found := IndexOfId(persons, personID.value);
      if found.None? {
        return Err(InvalidOperationException);
      }
      var i := found.value;
      ghost var before := persons;
      persons := persons[..i] + persons[i + 1..];
      assert forall j :: 0 <= j < |persons| ==> persons[j] == if j < i then before[j] else before[j + 1];
      r := Ok(true);
    }
  }

  /** The last person stored in a well-formed directory is listed last and is
      what lookup by its identifier returns, since no earlier person has that
      identifier. */
  lemma LastIsFound(s: PersonsService, today: Date)
    requires s.Valid() && s.persons != []
    ensures s.GetAllPersons(today)[|s.persons| - 1] ==
            s.ConvertPersonToPersonResponse(s.persons[|s.persons| - 1], today)
    ensures s.GetPersonByPersonID(Some(s.persons[|s.persons| - 1].PersonID), today) ==
            Some(s.ConvertPersonToPersonResponse(s.persons[|s.persons| - 1], today))
  {
    var n := |s.persons| - 1;
    assert forall j :: 0 <= j < n ==> s.persons[j].PersonID != s.persons[n].PersonID;
    assert IndexOfId(s.persons, s.persons[n].PersonID) == Some(n);
  }
}
