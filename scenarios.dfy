/**
 Client scenarios: sequences of service calls on fresh directories, with what
 the contracts alone let a caller conclude about their outcomes.
 */
module Scenarios {
  import opened Common
  import opened Text
  import opened Dto
  import opened Countries
  import opened Persons
  import opened Sorting
  import opened Filtering

  /** Adding "Egypt" to an empty directory succeeds with a non-empty
      identifier; adding it a second time fails with `ArgumentException`. */
  method AddCountryTwice() returns (first: Result<CountryResponse>, second: Result<CountryResponse>)
    ensures first.Ok? && first.value.CountryId != Empty && first.value.CountryName == "Egypt"
    ensures second == Err(ArgumentException)
  {
    var countries := new CountryService();
    first := countries.AddCountry(Some(CountryAddRequest(Some("Egypt"))));
    second := countries.AddCountry(Some(CountryAddRequest(Some("Egypt"))));
  }

  /** A request for a person living in `country`. */
  function Request(name: string, email: string, country: Guid): (r: PersonAddRequest)
    ensures r.PersonName == Some(name) && r.Email == Some(email) && r.CountryID == Some(country)
  {
    PersonAddRequest(Some(name), Some(email), None, Some(Male), Some(country), Some("test"), false)
  }

  /** A local part and a domain without '@', joined by one, have the e-mail
      shape. */
  lemma EmailShapeOfParts(local: string, domain: string)
    requires local != [] && domain != [] && '@' !in local && '@' !in domain
    ensures EmailShape(local + ['@'] + domain)
  {
    var s := local + ['@'] + domain;
    assert multiset(s) == multiset(local) + multiset{'@'} + multiset(domain);
    assert s[|s| - 1] == domain[|domain| - 1];
  }

  /** A request with a name that does not start with white space and an
      e-mail address of the local@domain shape passes validation. */
  lemma RequestValid(name: string, local: string, domain: string, country: Guid)
    requires name != [] && !IsWhiteSpace(name[0])
    requires local != [] && domain != [] && '@' !in local && '@' !in domain && !IsWhiteSpace(local[0])
    ensures ValidAddRequest(Request(name, local + "@" + domain, country))
  {
    EmailShapeOfParts(local, domain);
    assert (local + "@" + domain)[0] == local[0];
  }

  /** "es" occurs in "eslam" but not in "solom", and "eslam" sorts before
      "solom", all ignoring case. */
  lemma SampleNames()
    ensures ContainsIgnoreCase("eslam", "es") && !ContainsIgnoreCase("solom", "es")
    ensures LeIgnoreCase("eslam", "solom") && !LeIgnoreCase("solom", "eslam")
  {
    assert FoldAll("es") == "ES" && FoldAll("eslam") == "ESLAM" && FoldAll("solom") == "SOLOM";
    assert IsPrefix("ES", "ESLAM");
    NoEInSolom();
  }

  /** "ES" does not occur in "SOLOM": no 'E' does. */
  lemma NoEInSolom()
    ensures !Occurs("ES", "SOLOM")
  {
    OccursIffSlice("ES", "SOLOM");
    assert 'E' !in "SOLOM";
    forall i | 0 <= i <= 3 ensures !OccursAt("ES", "SOLOM", i) {
      assert "SOLOM"[i] in "SOLOM";
    }
  }

  /** Adds a person named `name` with e-mail `local`@`domain`: the request is
      valid, so the person is appended to storage. */
  method AddSample(persons: PersonsService, name: string, local: string, domain: string, country: Guid,
                   today: Date)
    requires persons.Valid()
    requires name != [] && !IsWhiteSpace(name[0])
    requires local != [] && domain != [] && '@' !in local && '@' !in domain && !IsWhiteSpace(local[0])
    modifies persons
    ensures persons.Valid()
    ensures |persons.persons| == |old(persons.persons)| + 1
    ensures persons.persons[..|old(persons.persons)|] == old(persons.persons)
    ensures persons.persons[|old(persons.persons)|].PersonName == Some(name)
  {
    RequestValid(name, local, domain, country);
    var r := persons.AddPerson(Some(Request(name, local + "@" + domain, country)), today);
  }

  /** A fresh directory holding "eslam" then "solom", both living in Egypt. */
  method TwoPersons(today: Date) returns (persons: PersonsService)
    ensures fresh(persons) && persons.Valid()
    ensures |persons.persons| == 2
    ensures persons.persons[0].PersonName == Some("eslam") && persons.persons[1].PersonName == Some("solom")
  {
    var countries := new CountryService();
    var egypt := countries.AddCountry(Some(CountryAddRequest(Some("Egypt"))));
    persons := new PersonsService(countries);
    AddSample(persons, "eslam", "test", "test.com", egypt.value.CountryId, today);
    AddSample(persons, "solom", "test2", "test.com", egypt.value.CountryId, today);
  }

  /** With "eslam" and "solom" stored, searching names for "es" keeps only
      "eslam". */
  method SearchNames(today: Date, renderDate: Date -> string) returns (found: seq<PersonResponse>)
    ensures found != [] && forall x :: x in found ==> x.PersonName == Some("eslam")
  {
    var persons := TwoPersons(today);
    var all := persons.GetAllPersons(today);
    assert FilterFieldOf("PersonName") == Some(OnPersonName);
    found := persons.GetFilteredPersons(Some("PersonName"), Some("es"), today, renderDate);
    SearchTwo(all, found, renderDate);
  }

  /** With "eslam" and "solom" stored, sorting names descending puts "solom"
      first. */
  method SortNamesDescending(today: Date) returns (sorted: seq<PersonResponse>)
    ensures |sorted| == 2 && sorted[0].PersonName == Some("solom") && sorted[1].PersonName == Some("eslam")
  {
    var persons := TwoPersons(today);
    var all := persons.GetAllPersons(today);
    assert SortFieldOf("PersonName") == Some(ByPersonName);
    sorted := GetSortedPersons(all, Some("PersonName"), DESC);
    SortTwo(all, sorted);
  }

  /** Of "eslam" and "solom", searching names for "es" keeps "eslam" only. */
  lemma SearchTwo(all: seq<PersonResponse>, found: seq<PersonResponse>, renderDate: Date -> string)
    requires |all| == 2 && all[0].PersonName == Some("eslam") && all[1].PersonName == Some("solom")
    requires forall x :: x in found <==> x in all && Matches(x, OnPersonName, "es", renderDate)
    ensures found != [] && forall x :: x in found ==> x.PersonName == Some("eslam")
  {
    SampleMatches(all[0], all[1], renderDate);
    assert all[0] in found && all[1] !in found;
    OnlyFirstKept(all, found);
  }

  /** A selection from a two-element list that keeps the first element and
      not the second holds copies of the first only. */
  lemma OnlyFirstKept(all: seq<PersonResponse>, found: seq<PersonResponse>)
    requires |all| == 2 && forall x :: x in found ==> x in all
    requires all[0] in found && all[1] !in found
    ensures found != [] && forall x :: x in found ==> x == all[0]
  {
    forall x | x in found ensures x == all[0] {
      var i :| 0 <= i < 2 && all[i] == x;
    }
  }

  /** Of the two sample names, only "eslam" contains "es". */
  lemma SampleMatches(p: PersonResponse, q: PersonResponse, renderDate: Date -> string)
    requires p.PersonName == Some("eslam") && q.PersonName == Some("solom")
    ensures Matches(p, OnPersonName, "es", renderDate) && !Matches(q, OnPersonName, "es", renderDate)
  {
    SampleNames();
  }

  /** Two views with different names ordered by name descending. */
  lemma SortTwo(all: seq<PersonResponse>, sorted: seq<PersonResponse>)
    requires |all| == 2 && all[0].PersonName == Some("eslam") && all[1].PersonName == Some("solom")
    requires multiset(sorted) == multiset(all) && Sorted(sorted, ByPersonName, DESC)
    ensures |sorted| == 2 && sorted[0].PersonName == Some("solom") && sorted[1].PersonName == Some("eslam")
  {
    SampleNames();
    PermutationOfTwo(all, sorted);
    assert Precedes(sorted[0], sorted[1], ByPersonName, DESC);
  }

  /** A permutation of a two-element list is the list or its reversal. */
  lemma PermutationOfTwo(all: seq<PersonResponse>, r: seq<PersonResponse>)
    requires |all| == 2 && multiset(r) == multiset(all)
    ensures |r| == 2
    ensures (r[0] == all[0] && r[1] == all[1]) || (r[0] == all[1] && r[1] == all[0])
  {
    assert all == [all[0], all[1]];
    assert |r| == |multiset(r)| == 2;
    assert r == [r[0], r[1]];
    assert multiset{r[0], r[1]} == multiset{all[0], all[1]};
  }

  /** Deleting from an empty directory returns false, whatever the identifier. */
  method DeleteFromEmpty(id: Guid) returns (deleted: Result<bool>)
    ensures deleted == Ok(false)
  {
    var countries := new CountryService();
    var persons := new PersonsService(countries);
    deleted := persons.DeletePerson(Some(id));
  }

  /** Once anyone is stored, deleting an identifier nobody has throws (from
      `First`) instead of returning false; deleting the stored person's own
      identifier returns true and leaves it unreachable. */
  method DeleteUnknownThenKnown(today: Date, country: Guid)
    returns (unknown: Result<bool>, known: Result<bool>, after: Option<PersonResponse>)
    ensures unknown == Err(InvalidOperationException)
    ensures known == Ok(true) && after.None?
  {
    var countries := new CountryService();
    var persons := new PersonsService(countries);
    var request := Request("eslam", "test" + "@" + "test.com", country);
    RequestValid("eslam", "test", "test.com", country);
    var added := persons.AddPerson(Some(request), today);
    var id := added.value.PersonID;
    unknown := persons.DeletePerson(Some(Empty));
    known := persons.DeletePerson(Some(id));
    after := persons.GetPersonByPersonID(Some(id), today);
  }
}
