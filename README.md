# Person and country directory — a Dafny model

This project models the service layer of a small CRUD web application that
keeps a directory of persons and the countries they live in.

- **Countries.** `CountryService` adds a country under a fresh identifier and
  rejects a null request, a null name or a name already stored. It lists all
  countries and looks one up by identifier.
- **Persons.** `PersonsService`:
  - adds, updates and deletes persons after validating the request;
  - lists persons as response views, with the country name resolved through
    the country service and an age computed from the date of birth;
  - finds a person by identifier;
  - filters views by a case-insensitive substring search on a named field;
  - sorts views stably by a named field, ascending or descending.
- **Transfer objects.** The add and update requests, the response view, their
  conversions and the view's equality.

Each service is a `class` whose table is a `seq` field that its methods
reassign. The conversions, validation rules, filtering and sorting are pure
functions. The sort is an insertion sort, specified as:
- a permutation of its input;
- ordered by the key;
- keeping every group of equal keys in input order.

These three properties are proved to determine the result uniquely. From that
follow idempotence, and that descending order is the exact reverse of
ascending order when no two keys are equal.

The model follows the code where it departs from the evident design:
- Sorting by `"Email"` orders by the person name (`Sorting.GetSortedPersons`).
- Filtering by `"CountryID"` searches the resolved country name
  (`Filtering.FilterPersons`).
- The response view never carries the stored `CountryID` (`Dto.ToPersonResponse`).
- `DeletePerson` first asks whether the table holds any person at all:
  - an empty table returns false;
  - a non-empty table without the identifier fails with
    `InvalidOperationException`, raised by `First`, rather than returning false.

Exceptions are `Err` values of a `Result`, and nulls are `None`. The clock
(`DateTime.Now`) is a `today: Date` parameter, counted in whole days. Rendering
a date as text for the date-of-birth search is a `renderDate` parameter.
`Guid.NewGuid()` is a choice of any non-empty identifier not yet in the table.

Modules: `Common` (options, results, failures, identifiers), `Text` (ordinal
case-insensitive comparison and search), `Dto`, `Sorting`, `Filtering`,
`Countries`, `Persons`, and `Scenarios`. `Scenarios` replays five of the
source's unit tests against the contracts: adding the duplicate country
"Egypt", searching names for "es", sorting names descending, deleting from an
empty directory, and deleting a stored person (there preceded by the deletion
of an unknown identifier).

## Model

| member | source | states |
|---|---|---|
| Countries.CountryService.AddCountry | Services/CountryService.cs:15-40 | A null request fails with `ArgumentNullException` and a null name with `ArgumentException`. A name already stored (exact, case-sensitive match) fails with `ArgumentException`; a new name always succeeds. On success the table gains exactly one country, appended: the given name under a fresh, non-empty identifier. That country is then listed and can be looked up. Failures leave the table unchanged. |
| Countries.CountryService.GetAllCountries | Services/CountryService.cs:42-46 | One view per stored country, in storage order, carrying its identifier and name. |
| Countries.CountryService.GetCountryByCountryID | Services/CountryService.cs:48-59 | Null exactly when the identifier is null or no stored country has it. Otherwise it returns the view of the first stored country with that identifier. |
| Countries.FirstWithId | Services/CountryService.cs:53-58 | `FirstOrDefault` by identifier: none exactly when no country has the identifier; otherwise the first such country's view. |
| Countries.CountNamed | Services/CountryService.cs:27 | The count of countries with exactly the given name is zero iff none has it. |
| Countries.ToCountryResponse | Services/CountryService.cs:38 | The view carries the country's identifier and name. |
| Persons.PersonsService.ConvertPersonToPersonResponse | Services/PersonsService.cs:20-27 | Apart from `Country`, the result is the person's `ToPersonResponse` view. `Country` is present iff the person's `CountryID` is non-null and some stored country has it. When present, it is the name of the first stored country with that identifier, as `GetCountryByCountryID` returns it. |
| Persons.PersonsService.AddPerson | Services/PersonsService.cs:29-46 | A null request fails with `ArgumentNullException` and an invalid request with `ArgumentException`; a valid one always succeeds. Failures leave the table unchanged. On success, `ToPerson` of the request is appended under a fresh, non-empty identifier. The result is that person's view, which is listed and found again by its identifier. |
| Persons.PersonsService.GetAllPersons | Services/PersonsService.cs:48-51 | One converted view per stored person, in storage order. |
| Persons.PersonsService.GetPersonByPersonID | Services/PersonsService.cs:53-68 | Null exactly when the identifier is null or no stored person has it. Otherwise the result is a listed view with that identifier. |
| Persons.PersonsService.GetFilteredPersons | Services/PersonsService.cs:70-105 | All views are returned when the key or the text is null or empty, or the key is unrecognised. Otherwise the result is a subsequence of all views holding exactly those that pass the field's filter, each passing view as often as it occurs among all views. |
| Persons.PersonsService.UpdatePerson | Services/PersonsService.cs:169-190 | A null request fails with `ArgumentNullException` and an invalid request with `ArgumentException`. An identifier no stored person has fails with `ArgumentNullException`. Failures leave the table unchanged. Otherwise exactly the first matching person is replaced by `ApplyUpdate` of it. The result is its new view, which lookup returns. |
| Persons.PersonsService.DeletePerson | Services/PersonsService.cs:192-208 | A null identifier fails with `ArgumentNullException`. An empty table returns false. A non-empty table without the identifier fails with `InvalidOperationException`. Failures and the false result leave the table unchanged. Otherwise the call returns true and removes exactly the first matching person; no remaining person has that identifier. |
| Persons.ApplyUpdate | Services/PersonsService.cs:181-185 | Name, e-mail, country, address and newsletter flag come from the request. Identifier, date of birth and gender are kept. |
| Persons.IndexOfId | Services/PersonsService.cs:176 | `FirstOrDefault` by identifier as a position: none exactly when no person has the identifier; otherwise the first position holding it. |
| Persons.PersonIds | Services/PersonsService.cs:40 | The identifiers in use, position by position, from which a fresh one is chosen. |
| Filtering.FilterPersons | Services/PersonsService.cs:72-104 | When the key or the text is null or empty, or the key is not one of the six recognised names, the list is returned unchanged. Otherwise the result is a subsequence of the input holding exactly the views that pass, each as often as in the input; failing views are dropped. Key `"CountryID"` filters on the country name. |
| Filtering.FilterFieldOf | Services/PersonsService.cs:80-102 | The six recognised keys, and only those, select a field; `"CountryID"` selects the country name. |
| Filtering.TextMatches | Services/PersonsService.cs:83 | The per-field test of the `Where` lambdas: a null or empty field always passes, and so does every field for an empty search string. A present, non-empty field passes exactly when some slice of it equals the search string ignoring case. |
| Filtering.Matches | Services/PersonsService.cs:82-99 | Every view passes an empty search. On the date of birth, a view passes exactly when it has none or its rendered date contains the search string ignoring case. Key `"CountryID"` tests the country name. |
| Filtering.Where | Services/PersonsService.cs:83-98 | A subsequence of the input, holding exactly the views that pass. Each passing view keeps its multiplicity; failing views are dropped. |
| Filtering.WhereKeepsAll | Services/PersonsService.cs:83-98 | When every view passes, the filter returns the list unchanged. |
| Filtering.WhereIdempotent | Services/PersonsService.cs:83-98 | Filtering the result again by the same field and text changes nothing. |
| Sorting.GetSortedPersons | Services/PersonsService.cs:107-167 | A null or empty key, or an unrecognised one, returns the list itself. Otherwise the result is a permutation of the input, ordered by the key in the requested direction, with equal keys left in input order. Key `"Email"` orders by person name. |
| Sorting.SortFieldOf | Services/PersonsService.cs:114-166 | Exactly the eight recognised keys select a field, and `"Email"` selects the person name. |
| Sorting.TextLe | Services/PersonsService.cs:117-157 | `OrdinalIgnoreCase` on nullable strings: null sorts before every string, no string sorts before null, and every string compares equal to itself. The ignore-case ties come from `Text.LeIgnoreCaseTotalPreorder`. |
| Sorting.NumberLe | Services/PersonsService.cs:129-139 | The default comparer on nullable dates and numbers: null sorts before every value, no value sorts before null, and equal values compare equal. |
| Sorting.FlagLe | Services/PersonsService.cs:159-163 | The default comparer on booleans: false sorts before true, and true never sorts before false. |
| Sorting.KeyLe | Services/PersonsService.cs:117-163 | The key selector and comparer of each of the seven sort fields. Defined by cases without its own contract; `PrecedesTotalPreorder` proves it a total preorder. |
| Sorting.Precedes | Services/PersonsService.cs:117-163 | Ascending order compares the keys as given and descending order with them swapped. Defined without its own contract; `PrecedesTotalPreorder` proves it a total preorder in both directions. |
| Sorting.StableSort | Services/PersonsService.cs:117-163 | `OrderBy` / `OrderByDescending`: the result is a permutation of the input, ordered by the key, and every group of equal keys keeps its input order. |
| Sorting.Insert | Services/PersonsService.cs:117-163 | Inserting into a sorted list adds exactly that element and keeps the list sorted. |
| Sorting.InsertTies | Services/PersonsService.cs:117-163 | Insertion into any list puts the new element at the front of its group of equal keys and leaves every other group as it was, as a stable sort that consumes its input from the end must. |
| Sorting.StableSortIsUnique | Services/PersonsService.cs:117-163 | Every list that is ordered by the key and keeps each group of equal keys in input order is the sort's result. |
| Sorting.SortedWithSameTiesAreEqual | Services/PersonsService.cs:117-163 | Two lists ordered by the same key with the same groups of equal keys are the same list. |
| Sorting.StableSortIdempotent | Services/PersonsService.cs:117-163 | Sorting twice by the same key and direction is sorting once. |
| Sorting.DescendingReversesAscending | Services/PersonsService.cs:117-163 | When no two keys are equal, the descending sort is the exact reverse of the ascending sort. |
| Sorting.PrecedesTotalPreorder | Services/PersonsService.cs:117-163 | Each key comparer, in either direction, is reflexive, total and transitive. Two views tie exactly when each precedes the other. |
| Sorting.TiesOfMembers | Services/PersonsService.cs:117-163 | A view belongs to its own group of equal keys. A group holds only views of the list whose key equals the group's key. |
| Sorting.TiesOfAppend | Services/PersonsService.cs:117-163 | The group of equal keys of a concatenation is the concatenation of the groups. |
| Sorting.TiesOfReverse | Services/PersonsService.cs:117-163 | The group of equal keys of a reversed list is the reversed group. |
| Sorting.NoTiesSingletonGroups | Services/PersonsService.cs:117-163 | Without equal keys, every group has at most one element. |
| Sorting.Reverse | Services/PersonsService.cs:121 | The descending order's reference: element `i` of the result is element `n-1-i` of the input. |
| Text.OccursIffSlice | Services/PersonsService.cs:83 | The substring scan finds the needle exactly when the needle equals some slice of the haystack. |
| Text.LexLeTotal | Services/PersonsService.cs:118 | Ordinal lexicographic order is total. |
| Text.LexLeTrans | Services/PersonsService.cs:118 | Ordinal lexicographic order is transitive. |
| Text.LexLeAntisym | Services/PersonsService.cs:118 | Ordinal lexicographic order is antisymmetric. |
| Text.LeIgnoreCaseTotalPreorder | Services/PersonsService.cs:118 | `StringComparer.OrdinalIgnoreCase` is a total preorder. Two strings compare equal exactly when they are equal ignoring case. |
| Text.Fold | Services/PersonsService.cs:83 | No lower-case ASCII letter survives the fold. Letters, and only letters, fold to upper-case letters. Every character that is not a lower-case letter is its own fold. |
| Text.FoldAlikeIff | Services/PersonsService.cs:83 | Two characters fold alike exactly when they are equal or are the lower- and upper-case forms of one ASCII letter. |
| Text.FoldAll | Services/PersonsService.cs:83 | Folds a string character by character, keeping its length. |
| Text.FoldAllSlice | Services/PersonsService.cs:83 | Folding a slice is slicing the folded string. |
| Text.EqualsIgnoreCase | ServiceContracts/DTO/PersonResponse.cs:63 | Two strings are equal ignoring case exactly when they have the same length and the characters at each position fold alike. |
| Text.ContainsIgnoreCase | Services/PersonsService.cs:83 | `Contains(..., OrdinalIgnoreCase)` holds exactly when some slice of the text equals the search string ignoring case. The empty search string is contained in every text. |
| Text.LeIgnoreCase | Services/PersonsService.cs:118 | `OrdinalIgnoreCase` comparison: the empty string sorts first, and strings equal ignoring case compare equal. `LeIgnoreCaseTotalPreorder` proves it a total preorder. |
| Dto.ToPersonResponse | ServiceContracts/DTO/PersonResponse.cs:72-88 | Identifier, name, e-mail, date of birth, gender, address and newsletter flag are copied. `CountryID` and `Country` stay null. `Age` is null iff the date of birth is. |
| Dto.AgeInYears | ServiceContracts/DTO/PersonResponse.cs:85 | The age is the integer nearest to days / 365.25. |
| Dto.ToPersonUpdateRequest | ServiceContracts/DTO/PersonResponse.cs:55-68 | Succeeds exactly when the gender text parses. A failure is the parse's failure. On success every other field is copied. |
| Dto.Equals | ServiceContracts/DTO/PersonResponse.cs:19-34 | False for null and for objects of another type. Otherwise true exactly when the two views agree on every field except `Age`. |
| Dto.EqualsIsEquivalence | ServiceContracts/DTO/PersonResponse.cs:19-34 | View equality is reflexive, symmetric and transitive. |
| Dto.EqualsIgnoresAge | ServiceContracts/DTO/PersonResponse.cs:19-34 | Changing `Age` on either side never changes equality. |
| Dto.ViewsOnDifferentDaysAreEqual | ServiceContracts/DTO/PersonResponse.cs:19-34 | Two views of one person taken on different days are equal. |
| Dto.ParseGender | ServiceContracts/DTO/PersonResponse.cs:63 | `Enum.Parse(..., true)`: a null text fails with `ArgumentNullException`. A success names the member, ignoring case. Any other failure is `ArgumentException`, and then no member's name matches. |
| Dto.GenderTextRoundTrip | ServiceContracts/DTO/PersonResponse.cs:63 | A member's name, in any letter case, parses back to that member. |
| Dto.GenderNamesDistinct | ServiceContracts/DTO/PersonResponse.cs:63 | No two gender members' names are equal ignoring case. |
| Dto.StoredGenderParsesBack | ServiceContracts/DTO/PersonAddRequest.cs:31 | The stored gender text parses back to the request's member. The empty text written for a missing gender fails with `ArgumentException`. |
| Dto.AddRequestToUpdateRequest | ServiceContracts/DTO/PersonResponse.cs:55-68 | An added person's view converts to an update request with the add request's fields. Its `CountryID` is null, because the view never carries one. |
| Dto.NullableGenderText | ServiceContracts/DTO/PersonAddRequest.cs:31 | `ToString()` of a nullable gender is empty exactly when there is no value. |
| Dto.GenderName | ServiceContracts/DTO/PersonAddRequest.cs:31 | `Enum.ToString()` of a gender member is its name: a non-empty word starting with a capital letter. `GenderNamesDistinct` proves no two names are equal ignoring case. |
| Dto.AddRequestToPerson | ServiceContracts/DTO/PersonAddRequest.cs:24-36 | Every field is copied and the gender stored as text, empty iff absent. A present gender's stored text parses back to the request's member. The identifier is left `Guid.Empty`. |
| Dto.UpdateRequestToPerson | ServiceContracts/DTO/PersonUpdateRequest.cs:22-35 | As for the add request, but the identifier is carried over. A present gender's stored text parses back to the request's member, and an absent gender is stored as the empty text. |
| Dto.ValidAddRequest | ServiceContracts/DTO/PersonAddRequest.cs:9-20 | Validity needs: a name with a non-blank character; an e-mail present, at least three characters long and containing '@'; and gender and country present. |
| Dto.RequiredText | ServiceContracts/DTO/PersonAddRequest.cs:9-11 | `[Required]` on a string: null and the empty string fail, and a text whose first character is not white space passes. |
| Dto.EmailShape | ServiceContracts/DTO/PersonAddRequest.cs:12 | The e-mail check (one '@', neither first nor last) holds exactly when the text splits around an '@' into a non-empty local part and a non-empty domain, neither holding another '@'. |
| Dto.OneAtIffSplit | ServiceContracts/DTO/PersonAddRequest.cs:12 | Exactly one '@' that is neither the first nor the last character is the same as such a split. |
| Dto.EmailAddress | ServiceContracts/DTO/PersonAddRequest.cs:12 | `[EmailAddress]`: null passes, and a present text passes exactly when it splits into local part and domain around its one '@'. |
| Dto.ValidUpdateRequest | ServiceContracts/DTO/PersonUpdateRequest.cs:11-15 | Validity needs a name with a non-blank character, and an e-mail present, at least three characters long and containing '@'. |
| Dto.UpdateValidityIgnoresOptionalFields | ServiceContracts/DTO/PersonUpdateRequest.cs:9-20 | Only name and e-mail decide an update request's validity. |
| Common.FreshGuid | Services/PersonsService.cs:40 | There is always a non-empty identifier not yet in use, so `Guid.NewGuid()` can be modelled as a choice. |
| Common.MaxBits | Services/CountryService.cs:34 | Bounds every identifier in use, the basis of `FreshGuid`. |
| Common.IsNullOrEmpty | Services/PersonsService.cs:75 | `string.IsNullOrEmpty`: the text is null or has length zero. Defined without its own contract. |
| Countries.CountryService.Valid | Services/CountryService.cs:27-34 | The table invariant that `AddCountry` keeps: names are unique, identifiers are unique and no identifier is `Guid.Empty`. Defined without its own contract; `AddCountry` requires and ensures it. |
| Persons.LastIsFound | Services/PersonsService.cs:42-45 | In a well-formed directory, the last stored person is listed last and is what lookup by its identifier returns. |
| Persons.AppendFresh | Services/PersonsService.cs:40-42 | Appending a person whose new identifier is neither `Empty` nor already stored keeps the identifiers distinct and non-empty. |
| Scenarios.AddCountryTwice | Services/CountryService.cs:15-40 | Adding "Egypt" to an empty directory succeeds with a non-empty identifier; adding it again fails with `ArgumentException`. |
| Scenarios.SearchNames | Services/PersonsService.cs:70-105 | With "eslam" and "solom" stored, searching names for "es" finds "eslam" and nobody else. |
| Scenarios.SortNamesDescending | Services/PersonsService.cs:120-121 | With "eslam" and "solom" stored, sorting names descending gives "solom" then "eslam". |
| Scenarios.SearchTwo | Services/PersonsService.cs:82-84 | Of "eslam" and "solom", only "eslam" passes the name filter for "es". |
| Scenarios.SortTwo | Services/PersonsService.cs:120-121 | Two views named "eslam" and "solom", sorted by name descending, come out as "solom" then "eslam". |
| Scenarios.SampleNames | Services/PersonsService.cs:83 | "es" occurs in "eslam" but not in "solom", ignoring case. "eslam" sorts strictly before "solom". |
| Scenarios.DeleteFromEmpty | Services/PersonsService.cs:192-201 | Deleting any identifier from an empty directory returns false. |
| Scenarios.DeleteUnknownThenKnown | Services/PersonsService.cs:192-208 | With one person stored, deleting an unknown identifier fails with `InvalidOperationException`. Deleting the stored person's identifier returns true, and the person can no longer be found. |
| Scenarios.RequestValid | ServiceContracts/DTO/PersonAddRequest.cs:9-20 | A name not starting with white space, an e-mail of the local@domain shape, a gender and a country make a valid add request. |
| Scenarios.EmailShapeOfParts | ServiceContracts/DTO/PersonAddRequest.cs:12 | A local part and a domain, both non-empty and without '@', joined by one '@' have the e-mail shape. |
| Scenarios.AddSample | Services/PersonsService.cs:29-46 | Adding a valid sample request appends one person with the given name and leaves the earlier ones in place. |
| Scenarios.TwoPersons | Services/PersonsService.cs:29-46 | A fresh directory holds "eslam" then "solom". |

## Left out

- Persistence: the database context, `SaveChanges`, transactions and change tracking. Each table is a sequence in storage order.
- Concurrency: none; every call runs alone.
- The clock: `DateTime.Now` is the `today` parameter. Ages are computed from whole days, not from the time of day.
- Date rendering: `ToString("dd MMMM yyyy")` for the date-of-birth search is the `renderDate` parameter.
- DateOfBirth: a date of birth is kept at whole-day resolution, while the source's `DateTime` also carries a time of day. Two births on the same day at different times are therefore equal in `Dto.Equals` and tied in the date-of-birth sort (`Sorting.NumberLe`), where the source tells them apart and orders them.
- Dto.AgeInYears: `Age` is a `double` in the source. The model keeps the rounded integer value of `Math.Round`.
- Text.Fold: ordinal case-insensitive comparison folds ASCII letters only. Characters outside ASCII compare as they are.
- Dto.IsWhiteSpace: `[Required]`'s white-space test recognises the ASCII white-space characters only.
- Dto.EmailAddress: `[EmailAddress]` is modelled as one '@' that is neither the first nor the last character. That is the attribute's check.
- `ValidationHelper.ModelValidation` is not part of this model. It is taken to validate every property attribute and to throw `ArgumentException` on the first failure.
- `GenderOptions` is not part of this model. Its members are taken to be `Male`, `Female` and `Others`.
- Dto.ParseGender: `Enum.Parse` also accepts numeric text and surrounding white space. Only member names, in any letter case, are modelled.
- `PersonResponse.GetHashCode` and `PersonResponse.ToString`: not modelled. They are reference hashing and display text, and no service operation depends on them.
- `Guid.NewGuid()` is randomness. It is modelled as the choice of any non-empty identifier not yet in the table. Random collisions are ignored.
- `CountryAddRequest.ToCountry` and the `Person` and `Country` entity classes are not part of this model. Their fields are taken from their use in the services.
- The controllers, the application start-up and dependency injection are outside the service layer.
- Persons.PersonsService.GetPersonByPersonID: the contract says the result is a listed view with the identifier. It does not say that the view is the first one, which differs only when identifiers repeat, and `Valid()` excludes that.
