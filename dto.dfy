/**
 The person entity and its data-transfer objects: the add and update requests
 with their declarative validation rules, the response view, and the
 conversions between them.
 */
module Dto {
  import opened Common
  import opened Text

  /** The gender enumeration; a person stores the member's name as text. */
  datatype GenderOptions = Male | Female | Others

  /** `Enum.ToString()` on a gender member: the member's name, a non-empty
      word starting with a capital letter. */
  function GenderName(g: GenderOptions): (t: string)
    ensures t != [] && 'A' <= t[0] <= 'Z'
  {
    match g
    case Male => "Male"
    case Female => "Female"
    case Others => "Others"
  }

  /** `ToString()` on a nullable gender: the member's name, or the empty
      string when there is no value. */
  function NullableGenderText(g: Option<GenderOptions>): (t: string)
    ensures t == [] <==> g.None?
  {
    match g
    case None => ""
    case Some(v) => GenderName(v)
  }

  /** `Enum.Parse(typeof(GenderOptions), text, true)`: a null text throws
      `ArgumentNullException`; a text naming no member, ignoring case, throws
      `ArgumentException`. */
  function ParseGender(text: Option<string>): (r: Result<GenderOptions>)
    ensures text.None? ==> r == Err(ArgumentNullException)
    ensures r.Ok? ==> text.Some? && EqualsIgnoreCase(text.value, GenderName(r.value))
    ensures text.Some? && r.Err? ==>
      r.error == ArgumentException && forall g :: !EqualsIgnoreCase(text.value, GenderName(g))
  {
    match text
    case None => Err(ArgumentNullException)
    case Some(t) =>
      if EqualsIgnoreCase(t, "Male") then Ok(Male)
      else if EqualsIgnoreCase(t, "Female") then Ok(Female)
      else if EqualsIgnoreCase(t, "Others") then Ok(Others)
      else Err(ArgumentException)
  }

  /** No two gender names are equal ignoring case. */
  lemma GenderNamesDistinct(g: GenderOptions, h: GenderOptions)
    requires EqualsIgnoreCase(GenderName(g), GenderName(h))
    ensures g == h
  {
    var fm, ff, fo := FoldAll("Male"), FoldAll("Female"), FoldAll("Others");
    assert |fm| == 4 && |ff| == 6 && |fo| == 6;
    assert ff[0] == 'F' && fo[0] == 'O';
  }

  /** The gender text written by `ToString()`, parsed back in any letter case,
      gives the original member. */
  lemma {:induction false} GenderTextRoundTrip(g: GenderOptions, text: string)
    requires EqualsIgnoreCase(text, GenderName(g))
    ensures ParseGender(Some(text)) == Ok(g)
  {
    var r := ParseGender(Some(text));
    if r.Ok? {
      assert EqualsIgnoreCase(GenderName(r.value), GenderName(g));
      GenderNamesDistinct(r.value, g);
    }
  }

  /** A stored person (the entity behind the database table). */
  datatype Person = Person(
    PersonID: Guid,
    PersonName: Option<string>,
    Email: Option<string>,
    DateOfBirth: Option<Date>,
    Gender: Option<string>,
    CountryID: Option<Guid>,
    Address: Option<string>,
    ReceiveNewLetters: bool)

  /** The view of a person handed to callers. `Country` is the resolved country
      name; `Age` is derived from the date of birth and the clock. */
  datatype PersonResponse = PersonResponse(
    PersonID: Guid,
    PersonName: Option<string>,
    Email: Option<string>,
    DateOfBirth: Option<Date>,
    Gender: Option<string>,
    CountryID: Option<Guid>,
    Country: Option<string>,
    Address: Option<string>,
    ReceiveNewLetters: bool,
    Age: Option<int>)

  /** The request to add a person. */
  datatype PersonAddRequest = PersonAddRequest(
    PersonName: Option<string>,
    Email: Option<string>,
    DateOfBirth: Option<Date>,
    Gender: Option<GenderOptions>,
    CountryID: Option<Guid>,
    Address: Option<string>,
    ReceiveNewLetters: bool)

  /** The request to update a person. */
  datatype PersonUpdateRequest = PersonUpdateRequest(
    PersonID: Guid,
    PersonName: Option<string>,
    Email: Option<string>,
    DateOfBirth: Option<Date>,
    Gender: Option<GenderOptions>,
    CountryID: Option<Guid>,
    Address: Option<string>,
    ReceiveNewLetters: bool)

  // ---------------------------------------------------------------------------
  // Validation rules
  // ---------------------------------------------------------------------------

  /** `char.IsWhiteSpace`, restricted to the ASCII white-space characters. */
  predicate IsWhiteSpace(c: char) {
    c == ' ' || c == '\t' || c == '\n' || c == '\r' || c == '\U{000B}' || c == '\U{000C}'
  }

  /** `[Required]` on a string: present, and not empty or white space only.
      Null and the empty string fail; a text whose first character is not
      white space passes. */
  function RequiredText(s: Option<string>): (ok: bool)
    ensures ok ==> s.Some? && s.value != []
    ensures s.Some? && s.value != [] && !IsWhiteSpace(s.value[0]) ==> ok
  {
    s.Some? && exists i :: 0 <= i < |s.value| && !IsWhiteSpace(s.value[i])
  }

  /** `s` splits at `i` into a non-empty local part and a non-empty domain,
      neither holding an '@', around the '@' at `i`. */
  predicate SplitsAt(s: string, i: int) {
    0 < i < |s| - 1 && s[i] == '@' && '@' !in s[..i] && '@' !in s[i + 1..]
  }

  /** The local@domain shape of an e-mail address: exactly one '@', neither the
      first nor the last character; equivalently, the text splits around its
      one '@' into two non-empty parts. */
  function EmailShape(s: string): (ok: bool)
    ensures ok <==> exists i :: SplitsAt(s, i)
  {
    OneAtIffSplit(s);
    |s| > 0 && s[0] != '@' && s[|s| - 1] != '@' && multiset(s)['@'] == 1
  }

  /** Counting characters around position `i`. */
  lemma CountAround(s: string, i: int)
    requires 0 <= i < |s|
    ensures multiset(s)['@'] == multiset(s[..i])['@'] + (if s[i] == '@' then 1 else 0) + multiset(s[i + 1..])['@']
  {
    assert s == s[..i] + [s[i]] + s[i + 1..];
  }

  /** Exactly one '@', neither first nor last, is a split into two non-empty
      parts around it. */
  lemma {:induction false} OneAtIffSplit(s: string)
    ensures (|s| > 0 && s[0] != '@' && s[|s| - 1] != '@' && multiset(s)['@'] == 1) <==> exists i :: SplitsAt(s, i)
  {
    if |s| > 0 && s[0] != '@' && s[|s| - 1] != '@' && multiset(s)['@'] == 1 {
      assert '@' in multiset(s);
      var i :| 0 <= i < |s| && s[i] == '@';
      CountAround(s, i);
      assert multiset(s[..i])['@'] == 0 && multiset(s[i + 1..])['@'] == 0;
      assert SplitsAt(s, i);
    }
    if exists i :: SplitsAt(s, i) {
      var i :| SplitsAt(s, i);
      CountAround(s, i);
      assert multiset(s[..i])['@'] == 0 && multiset(s[i + 1..])['@'] == 0;
      assert s[0] == s[..i][0] && s[|s| - 1] == s[i + 1..][|s| - i - 2];
    }
  }

  /** `[EmailAddress]`: a null value passes (that is `[Required]`'s business);
      a present value must split around its one '@' into two non-empty parts. */
  function EmailAddress(s: Option<string>): (ok: bool)
    ensures ok <==> s.None? || exists i :: SplitsAt(s.value, i)
  {
    s.None? || EmailShape(s.value)
  }

  /** The attributes of the add request, all checked: `PersonName`, `Email`,
      `Gender` and `CountryID` are required, and `Email` must be an address. */
  function ValidAddRequest(r: PersonAddRequest): (ok: bool)
    ensures ok ==> r.PersonName.Some? && r.PersonName.value != []
    ensures ok ==> r.Email.Some? && 3 <= |r.Email.value| && '@' in r.Email.value
    ensures ok ==> r.Gender.Some? && r.CountryID.Some?
  {
    && RequiredText(r.PersonName)
    && RequiredText(r.Email)
    && EmailAddress(r.Email)
    && r.Gender.Some?
    && r.CountryID.Some?
  }

  /** The attributes of the update request: `PersonName` and `Email` are
      required and `Email` must be an address; `[Required]` on the
      non-nullable `PersonID` can never fail, and the other fields are optional. */
  function ValidUpdateRequest(r: PersonUpdateRequest): (ok: bool)
    ensures ok ==> r.PersonName.Some? && r.PersonName.value != []
    ensures ok ==> r.Email.Some? && 3 <= |r.Email.value| && '@' in r.Email.value
  {
    && RequiredText(r.PersonName)
    && RequiredText(r.Email)
    && EmailAddress(r.Email)
  }

  /** Only name and e-mail decide an update request's validity: any identifier,
      date of birth, gender, country, address and newsletter flag may be given. */
  lemma UpdateValidityIgnoresOptionalFields(r: PersonUpdateRequest, id: Guid, dob: Option<Date>,
                                            g: Option<GenderOptions>, c: Option<Guid>, a: Option<string>, news: bool)
    ensures ValidUpdateRequest(r) ==
      ValidUpdateRequest(PersonUpdateRequest(id, r.PersonName, r.Email, dob, g, c, a, news))
  {
  }

  // ---------------------------------------------------------------------------
  // Conversions
  // ---------------------------------------------------------------------------

  /** `PersonAddRequest.ToPerson`: every field is copied, the gender as its
      text; `PersonID` keeps its default. */
  function AddRequestToPerson(r: PersonAddRequest): (p: Person)
    ensures p.PersonID == Empty
    ensures p.PersonName == r.PersonName && p.Email == r.Email && p.DateOfBirth == r.DateOfBirth
    ensures p.Address == r.Address && p.CountryID == r.CountryID && p.ReceiveNewLetters == r.ReceiveNewLetters
    ensures p.Gender.Some? && (p.Gender.value == [] <==> r.Gender.None?)
    ensures r.Gender.Some? ==> ParseGender(p.Gender) == Ok(r.Gender.value)
  {
    StoredGenderParsesBack(r.Gender);
    Person(Empty, r.PersonName, r.Email, r.DateOfBirth, Some(NullableGenderText(r.Gender)),
           r.CountryID, r.Address, r.ReceiveNewLetters)
  }

  /** `PersonUpdateRequest.ToPerson`: as for the add request, but the
      identifier is carried over. */
  function UpdateRequestToPerson(r: PersonUpdateRequest): (p: Person)
    ensures p.PersonID == r.PersonID
    ensures p.PersonName == r.PersonName && p.Email == r.Email && p.DateOfBirth == r.DateOfBirth
    ensures p.Address == r.Address && p.CountryID == r.CountryID && p.ReceiveNewLetters == r.ReceiveNewLetters
    ensures p.Gender.Some? && (p.Gender.value == [] <==> r.Gender.None?)
    ensures r.Gender.Some? ==> ParseGender(p.Gender) == Ok(r.Gender.value)
  {
    StoredGenderParsesBack(r.Gender);
    Person(r.PersonID, r.PersonName, r.Email, r.DateOfBirth, Some(NullableGenderText(r.Gender)),
           r.CountryID, r.Address, r.ReceiveNewLetters)
  }

  /** The gender a request carries survives `ToPerson` as text: parsing the
      stored text gives the member back, and a request without a gender stores
      an empty text that does not parse. */
  lemma {:induction false} StoredGenderParsesBack(g: Option<GenderOptions>)
    ensures g.Some? ==> ParseGender(Some(NullableGenderText(g))) == Ok(g.value)
    ensures g.None? ==> ParseGender(Some(NullableGenderText(g))) == Err(ArgumentException)
  {
    if g.Some? {
      GenderTextRoundTrip(g.value, GenderName(g.value));
    }
  }

  /** `Math.Round(days / 365.25)` for a whole number of days: 4 * days / 1461
      rounded to the nearest integer (the denominator is odd, so there is never
      a midpoint to break). */
  function AgeInYears(today: Date, birth: Date): (years: int)
    ensures 1461 * years - 730 <= 4 * (today - birth) <= 1461 * years + 730
  {
    (4 * (today - birth) + 730) / 1461
  }

  /** `PersonExtensions.ToPersonResponse`: copies the stored fields, computes
      `Age`, and never sets `CountryID` nor `Country`. */
  function ToPersonResponse(p: Person, today: Date): (r: PersonResponse)
    ensures r.PersonID == p.PersonID && r.PersonName == p.PersonName && r.Email == p.Email
    ensures r.DateOfBirth == p.DateOfBirth && r.Gender == p.Gender
    ensures r.Address == p.Address && r.ReceiveNewLetters == p.ReceiveNewLetters
    ensures r.CountryID.None? && r.Country.None?
    ensures r.Age.None? <==> p.DateOfBirth.None?
  {
    PersonResponse(p.PersonID, p.PersonName, p.Email, p.DateOfBirth, p.Gender, None, None,
                   p.Address, p.ReceiveNewLetters,
                   if p.DateOfBirth.Some? then Some(AgeInYears(today, p.DateOfBirth.value)) else None)
  }

  /** `PersonResponse.ToPersonUpdateRequest`: copies the fields and parses the
      gender text back, which throws when the text names no member. */
  function ToPersonUpdateRequest(v: PersonResponse): (r: Result<PersonUpdateRequest>)
    ensures r.Ok? <==> ParseGender(v.Gender).Ok?
    ensures r.Err? ==> r.error == ParseGender(v.Gender).error
    ensures r.Ok? ==>
      && r.value.PersonID == v.PersonID && r.value.PersonName == v.PersonName
      && r.value.Email == v.Email && r.value.DateOfBirth == v.DateOfBirth
      && r.value.Address == v.Address && r.value.CountryID == v.CountryID
      && r.value.ReceiveNewLetters == v.ReceiveNewLetters
      && r.value.Gender == Some(ParseGender(v.Gender).value)
  {
    match ParseGender(v.Gender)
    case Err(e) => Err(e)
    case Ok(g) =>
      Ok(PersonUpdateRequest(v.PersonID, v.PersonName, v.Email, v.DateOfBirth, Some(g),
                             v.CountryID, v.Address, v.ReceiveNewLetters))
  }

  /** An added person's view turns into an update request carrying the same
      identifier, name, e-mail, birth date, gender, address and newsletter flag
      as the add request; its `CountryID` is null, because the view never
      carries one. */
  lemma {:induction false} AddRequestToUpdateRequest(r: PersonAddRequest, id: Guid, today: Date)
    requires r.Gender.Some?
    ensures ToPersonUpdateRequest(ToPersonResponse(AddRequestToPerson(r).(PersonID := id), today)) ==
      Ok(PersonUpdateRequest(id, r.PersonName, r.Email, r.DateOfBirth, r.Gender,
                             None, r.Address, r.ReceiveNewLetters))
  {
    StoredGenderParsesBack(r.Gender);
  }

  // ---------------------------------------------------------------------------
  // Equality of views
  // ---------------------------------------------------------------------------

  /** The argument of `Equals(object?)`: either a person response or an object
      of another type. */
  datatype AnyObject = Response(response: PersonResponse) | OtherObject

  /** `PersonResponse.Equals`: false for null and for other types; otherwise
      all fields except `Age` must agree. */
  function Equals(v: PersonResponse, obj: Option<AnyObject>): (b: bool)
    ensures b <==> obj.Some? && obj.value.Response? && obj.value.response.(Age := v.Age) == v
  {
    match obj
    case None => false
    case Some(OtherObject) => false
    case Some(Response(w)) =>
      && v.PersonID == w.PersonID
      && v.PersonName == w.PersonName
      && v.Email == w.Email
      && v.DateOfBirth == w.DateOfBirth
      && v.Gender == w.Gender
      && v.Country == w.Country
      && v.CountryID == w.CountryID
      && v.Address == w.Address
      && v.ReceiveNewLetters == w.ReceiveNewLetters
  }

  /** View equality is an equivalence relation. */
  lemma EqualsIsEquivalence(u: PersonResponse, v: PersonResponse, w: PersonResponse)
    ensures Equals(u, Some(Response(u)))
    ensures Equals(u, Some(Response(v))) ==> Equals(v, Some(Response(u)))
    ensures Equals(u, Some(Response(v))) && Equals(v, Some(Response(w))) ==> Equals(u, Some(Response(w)))
  {
  }

  /** `Age` never affects equality, on either side. */
  lemma EqualsIgnoresAge(v: PersonResponse, w: PersonResponse, a: Option<int>, b: Option<int>)
    ensures Equals(v.(Age := a), Some(Response(w.(Age := b)))) == Equals(v, Some(Response(w)))
  {
  }

  /** Two views of one person taken on different days are equal. */
  lemma ViewsOnDifferentDaysAreEqual(p: Person, d1: Date, d2: Date)
    ensures Equals(ToPersonResponse(p, d1), Some(Response(ToPersonResponse(p, d2))))
  {
  }
}
