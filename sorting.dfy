/**
 The sorting half of the query engine: `GetSortedPersons` orders a list of
 person views by one named field, ascending or descending, ignoring case on
 text, with nulls first and false before true. LINQ's `OrderBy` and
 `OrderByDescending` are stable sorts; here that is an insertion sort whose
 result is characterised by three properties: it is ordered by the key, it is a
 permutation of the input, and each group of tied elements keeps its input
 order.
 */
module Sorting {
  import opened Common
  import opened Text
  import opened Dto

  /** `SortOrderOptions`. */
  datatype SortOrderOptions = ASC | DESC

  /** The sort keys the dispatch recognises. */
  datatype SortField =
    | ByPersonName | ByDateOfBirth | ByAge | ByGender | ByCountry | ByAddress | ByReceiveNewLetters

  /** The dispatch on the `sortBy` text. The key "Email" selects the person
      name, as `GetSortedPersons` does. */
  function SortFieldOf(sortBy: string): (f: Option<SortField>)
    ensures sortBy == "Email" ==> f == Some(ByPersonName)
    ensures f.None? <==>
      sortBy !in {"PersonName", "Email", "DateOfBirth", "Age", "Gender", "Country", "Address", "ReceiveNewLetters"}
  {
    if sortBy == "PersonName" then Some(ByPersonName)
    else if sortBy == "Email" then Some(ByPersonName)
    else if sortBy == "DateOfBirth" then Some(ByDateOfBirth)
    else if sortBy == "Age" then Some(ByAge)
    else if sortBy == "Gender" then Some(ByGender)
    else if sortBy == "Country" then Some(ByCountry)
    else if sortBy == "Address" then Some(ByAddress)
    else if sortBy == "ReceiveNewLetters" then Some(ByReceiveNewLetters)
    else None
  }

  /** `StringComparer.OrdinalIgnoreCase` on nullable strings: null sorts
      before every string, and every string compares equal to itself. */
  function TextLe(a: Option<string>, b: Option<string>): (r: bool)
    ensures a.None? ==> r
    ensures a.Some? && b.None? ==> !r
    ensures a == b ==> r
  {
    a.None? || (b.Some? && LeIgnoreCase(a.value, b.value))
  }

  /** The default comparer on nullable numbers and dates: null sorts before
      every value, and equal values compare equal. */
  function NumberLe(a: Option<int>, b: Option<int>): (r: bool)
    ensures a.None? ==> r
    ensures a.Some? && b.None? ==> !r
    ensures a == b ==> r
  {
    a.None? || (b.Some? && a.value <= b.value)
  }

  /** The default comparer on booleans: false sorts before true. */
  function FlagLe(a: bool, b: bool): (r: bool)
    ensures !a ==> r
    ensures a && !b ==> !r
  {
    !a || b
  }

  /** `p` sorts no later than `q` in ascending order of field `f`. */
  predicate KeyLe(p: PersonResponse, q: PersonResponse, f: SortField) {
    match f
    case ByPersonName => TextLe(p.PersonName, q.PersonName)
    case ByDateOfBirth => NumberLe(p.DateOfBirth, q.DateOfBirth)
    case ByAge => NumberLe(p.Age, q.Age)
    case ByGender => TextLe(p.Gender, q.Gender)
    case ByCountry => TextLe(p.Country, q.Country)
    case ByAddress => TextLe(p.Address, q.Address)
    case ByReceiveNewLetters => FlagLe(p.ReceiveNewLetters, q.ReceiveNewLetters)
  }

  /** `p` may come before `q` in the requested order: descending order is
      ascending order with the comparison turned round. */
  predicate Precedes(p: PersonResponse, q: PersonResponse, f: SortField, o: SortOrderOptions) {
    if o == ASC then KeyLe(p, q, f) else KeyLe(q, p, f)
  }

  /** `p` and `q` have equal keys: the comparer returns 0. */
  predicate Tied(p: PersonResponse, q: PersonResponse, f: SortField) {
    KeyLe(p, q, f) && KeyLe(q, p, f)
  }

  /** The key order is a total preorder whatever the field and direction. */
  lemma PrecedesTotalPreorder(p: PersonResponse, q: PersonResponse, r: PersonResponse,
                              f: SortField, o: SortOrderOptions)
    ensures Precedes(p, p, f, o)
    ensures Precedes(p, q, f, o) || Precedes(q, p, f, o)
    ensures Precedes(p, q, f, o) && Precedes(q, r, f, o) ==> Precedes(p, r, f, o)
    ensures Precedes(p, q, f, o) && Precedes(q, p, f, o) <==> Tied(p, q, f)
  {
    match f
    case ByPersonName =>
      if p.PersonName.Some? && q.PersonName.Some? && r.PersonName.Some? {
        LeIgnoreCaseTotalPreorder(p.PersonName.value, q.PersonName.value, r.PersonName.value);
        LeIgnoreCaseTotalPreorder(r.PersonName.value, q.PersonName.value, p.PersonName.value);
      } else if p.PersonName.Some? && q.PersonName.Some? {
        LeIgnoreCaseTotalPreorder(p.PersonName.value, q.PersonName.value, q.PersonName.value);
      } else if p.PersonName.Some? {
        LeIgnoreCaseTotalPreorder(p.PersonName.value, p.PersonName.value, p.PersonName.value);
      }
    case ByGender =>
      if p.Gender.Some? && q.Gender.Some? && r.Gender.Some? {
        LeIgnoreCaseTotalPreorder(p.Gender.value, q.Gender.value, r.Gender.value);
        LeIgnoreCaseTotalPreorder(r.Gender.value, q.Gender.value, p.Gender.value);
      } else if p.Gender.Some? && q.Gender.Some? {
        LeIgnoreCaseTotalPreorder(p.Gender.value, q.Gender.value, q.Gender.value);
      } else if p.Gender.Some? {
        LeIgnoreCaseTotalPreorder(p.Gender.value, p.Gender.value, p.Gender.value);
      }
    case ByCountry =>
      if p.Country.Some? && q.Country.Some? && r.Country.Some? {
        LeIgnoreCaseTotalPreorder(p.Country.value, q.Country.value, r.Country.value);
        LeIgnoreCaseTotalPreorder(r.Country.value, q.Country.value, p.Country.value);
      } else if p.Country.Some? && q.Country.Some? {
        LeIgnoreCaseTotalPreorder(p.Country.value, q.Country.value, q.Country.value);
      } else if p.Country.Some? {
        LeIgnoreCaseTotalPreorder(p.Country.value, p.Country.value, p.Country.value);
      }
    case ByAddress =>
      if p.Address.Some? && q.Address.Some? && r.Address.Some? {
        LeIgnoreCaseTotalPreorder(p.Address.value, q.Address.value, r.Address.value);
        LeIgnoreCaseTotalPreorder(r.Address.value, q.Address.value, p.Address.value);
      } else if p.Address.Some? && q.Address.Some? {
        LeIgnoreCaseTotalPreorder(p.Address.value, q.Address.value, q.Address.value);
      } else if p.Address.Some? {
        LeIgnoreCaseTotalPreorder(p.Address.value, p.Address.value, p.Address.value);
      }
    case _ =>
  }

  /** `s` is ordered by field `f` in direction `o`. */
  ghost predicate Sorted(s: seq<PersonResponse>, f: SortField, o: SortOrderOptions) {
    forall i, j :: 0 <= i < j < |s| ==> Precedes(s[i], s[j], f, o)
  }

  /** The elements of `s` whose key equals `k`'s, in their order in `s`. */
  function TiesOf(s: seq<PersonResponse>, k: PersonResponse, f: SortField): seq<PersonResponse> {
    if s == [] then []
    else (if Tied(s[0], k, f) then [s[0]] else []) + TiesOf(s[1..], k, f)
  }

  /** Every group of tied elements appears in `r` in the order it has in `s`:
      the stability of a sort. */
  ghost predicate KeepsTieOrder(r: seq<PersonResponse>, s: seq<PersonResponse>, f: SortField) {
    forall k :: TiesOf(r, k, f) == TiesOf(s, k, f)
  }

  /** Inserts `x` before the first element of `t` that it may precede. */
  function Insert(x: PersonResponse, t: seq<PersonResponse>, f: SortField, o: SortOrderOptions)
    : (r: seq<PersonResponse>)
    ensures multiset(r) == multiset(t) + multiset{x}
    ensures Sorted(t, f, o) ==> Sorted(r, f, o)
  {
    if t == [] then [x]
    else if Precedes(x, t[0], f, o) then
      var r := [x] + t;
      assert Sorted(t, f, o) ==> Sorted(r, f, o) by {
        if Sorted(t, f, o) {
          FrontStaysSorted(x, t, f, o);
        }
      }
      r
    else
      var rest := Insert(x, t[1..], f, o);
      var r := [t[0]] + rest;
      assert t == [t[0]] + t[1..];
      assert Sorted(t, f, o) ==> Sorted(r, f, o) by {
        if Sorted(t, f, o) {
          SortedTail(t, f, o);
          HeadStaysSorted(x, t, rest, f, o);
        }
      }
      r
  }

  /** An element that may precede the head of an ordered list may lead it. */
  lemma FrontStaysSorted(x: PersonResponse, t: seq<PersonResponse>, f: SortField, o: SortOrderOptions)
    requires t != [] && Precedes(x, t[0], f, o) && Sorted(t, f, o)
    ensures Sorted([x] + t, f, o)
  {
    var r := [x] + t;
    forall i, j | 0 <= i < j < |r| ensures Precedes(r[i], r[j], f, o) {
      if i == 0 && j > 1 {
        PrecedesTotalPreorder(x, t[0], t[j - 1], f, o);
      }
    }
  }

  /** The head of an ordered list may lead the ordered insertion of an
      element that it precedes into the tail. */
  lemma HeadStaysSorted(x: PersonResponse, t: seq<PersonResponse>, rest: seq<PersonResponse>,
                        f: SortField, o: SortOrderOptions)
    requires t != [] && !Precedes(x, t[0], f, o) && Sorted(t, f, o)
    requires Sorted(rest, f, o) && multiset(rest) == multiset(t[1..]) + multiset{x}
    ensures Sorted([t[0]] + rest, f, o)
  {
    PrecedesTotalPreorder(x, t[0], x, f, o);
    forall j | 0 <= j < |rest| ensures Precedes(t[0], rest[j], f, o) {
      assert rest[j] in multiset(rest);
      if rest[j] != x {
        assert rest[j] in t[1..];
      }
    }
    var r := [t[0]] + rest;
    forall i, j | 0 <= i < j < |r| ensures Precedes(r[i], r[j], f, o) {
      if i > 0 {
        assert r[i] == rest[i - 1] && r[j] == rest[j - 1];
      }
    }
  }

  /** The tail of an ordered list is ordered. */
  lemma SortedTail(t: seq<PersonResponse>, f: SortField, o: SortOrderOptions)
    requires t != [] && Sorted(t, f, o)
    ensures Sorted(t[1..], f, o)
  {
    forall i, j | 0 <= i < j < |t[1..]| ensures Precedes(t[1..][i], t[1..][j], f, o) {
      assert t[1..][i] == t[i + 1] && t[1..][j] == t[j + 1];
    }
  }

  /** The tie group of a list with a head element. */
  lemma TiesOfCons(a: PersonResponse, s: seq<PersonResponse>, k: PersonResponse, f: SortField)
    ensures TiesOf([a] + s, k, f) == (if Tied(a, k, f) then [a] else []) + TiesOf(s, k, f)
  {
    assert ([a] + s)[1..] == s;
  }

  /** Inserting `x` into any list appends `x` to its own tie group and leaves
      the other groups alone: `x` lands before the first element it may
      precede, and every element tied with it is such an element. */
  lemma {:induction false} InsertTies(x: PersonResponse, t: seq<PersonResponse>, k: PersonResponse,
                                      f: SortField, o: SortOrderOptions)
    ensures TiesOf(Insert(x, t, f, o), k, f) == (if Tied(x, k, f) then [x] else []) + TiesOf(t, k, f)
  {
    InsertShape(x, t, f, o);
    if t == [] {
      TiesOfCons(x, [], k, f);
    } else if Precedes(x, t[0], f, o) {
      TiesOfCons(x, t, k, f);
    } else {
      InsertTies(x, t[1..], k, f, o);
      InsertTiesPastHead(x, t, k, f, o);
    }
  }

  /** The step of `InsertTies` where `x` goes past the head of `t`. */
  lemma InsertTiesPastHead(x: PersonResponse, t: seq<PersonResponse>, k: PersonResponse,
                           f: SortField, o: SortOrderOptions)
    requires t != [] && !Precedes(x, t[0], f, o)
    requires TiesOf(Insert(x, t[1..], f, o), k, f) == (if Tied(x, k, f) then [x] else []) + TiesOf(t[1..], k, f)
    ensures TiesOf([t[0]] + Insert(x, t[1..], f, o), k, f) == (if Tied(x, k, f) then [x] else []) + TiesOf(t, k, f)
  {
    var own := if Tied(x, k, f) then [x] else [];
    var head := if Tied(t[0], k, f) then [t[0]] else [];
    assert t == [t[0]] + t[1..];
    TiesOfCons(t[0], Insert(x, t[1..], f, o), k, f);
    TiesOfCons(t[0], t[1..], k, f);
    // x did not precede t[0], so the two are not in one tie group
    TiedPrecede(x, t[0], k, f, o);
    assert TiesOf([t[0]] + Insert(x, t[1..], f, o), k, f) == head + (own + TiesOf(t[1..], k, f));
    assert TiesOf(t, k, f) == head + TiesOf(t[1..], k, f);
    SwapAroundEmpty(own, head, TiesOf(t[1..], k, f));
  }

  /** Two lists of which one is empty can be swapped in front of a third. */
  lemma SwapAroundEmpty(a: seq<PersonResponse>, b: seq<PersonResponse>, c: seq<PersonResponse>)
    requires a == [] || b == []
    ensures a + (b + c) == b + (a + c)
  {
    if a == [] {
      assert a + (b + c) == b + c == b + (a + c);
    } else {
      assert b + (a + c) == a + c == a + (b + c);
    }
  }

  /** One step of `Insert`. */
  lemma InsertShape(x: PersonResponse, t: seq<PersonResponse>, f: SortField, o: SortOrderOptions)
    ensures t == [] ==> Insert(x, t, f, o) == [x]
    ensures t != [] && Precedes(x, t[0], f, o) ==> Insert(x, t, f, o) == [x] + t
    ensures t != [] && !Precedes(x, t[0], f, o) ==> Insert(x, t, f, o) == [t[0]] + Insert(x, t[1..], f, o)
  {
  }

  /** Two members of one tie group may precede each other. */
  lemma TiedPrecede(p: PersonResponse, q: PersonResponse, k: PersonResponse,
                    f: SortField, o: SortOrderOptions)
    ensures Tied(p, k, f) && Tied(q, k, f) ==> Precedes(p, q, f, o)
  {
    PrecedesTotalPreorder(p, k, q, f, ASC);
    PrecedesTotalPreorder(q, k, p, f, ASC);
  }

  /** The stable sort: `OrderBy` when `o` is ASC, `OrderByDescending` when DESC. */
  function StableSort(s: seq<PersonResponse>, f: SortField, o: SortOrderOptions): (r: seq<PersonResponse>)
    ensures multiset(r) == multiset(s)
    ensures Sorted(r, f, o)
    ensures KeepsTieOrder(r, s, f)
  {
    if s == [] then []
    else
      var rest := StableSort(s[1..], f, o);
      var r := Insert(s[0], rest, f, o);
      assert s == [s[0]] + s[1..];
      assert KeepsTieOrder(r, s, f) by {
        forall k ensures TiesOf(r, k, f) == TiesOf(s, k, f) {
          InsertTies(s[0], rest, k, f, o);
        }
      }
      r
  }

  /** Every element of a list is in its own tie group, and a tie group holds
      only elements of the list. */
  lemma {:induction false} TiesOfMembers(s: seq<PersonResponse>, x: PersonResponse, k: PersonResponse, f: SortField)
    ensures x in s ==> x in TiesOf(s, x, f)
    ensures x in TiesOf(s, k, f) ==> x in s && Tied(x, k, f)
  {
    PrecedesTotalPreorder(x, x, x, f, ASC);
    if s != [] {
      TiesOfMembers(s[1..], x, k, f);
      assert s == [s[0]] + s[1..];
    }
  }

  /** Two ordered lists with the same tie groups are equal. */
  lemma {:induction false} SortedWithSameTiesAreEqual(t: seq<PersonResponse>, u: seq<PersonResponse>,
                                                     f: SortField, o: SortOrderOptions)
    requires Sorted(t, f, o) && Sorted(u, f, o)
    requires KeepsTieOrder(t, u, f)
    ensures t == u
    decreases |t| + |u|
  {
    if t == [] && u == [] {
    } else if t == [] {
      // u[0] would be in its own tie group in u but not in t
      TiesOfMembers(u, u[0], u[0], f);
      assert false;
    } else if u == [] {
      TiesOfMembers(t, t[0], t[0], f);
      assert false;
    } else {
      SameHead(t, u, f, o);
      SameTailTies(t, u, f);
      SortedTail(t, f, o);
      SortedTail(u, f, o);
      SortedWithSameTiesAreEqual(t[1..], u[1..], f, o);
      assert t == [t[0]] + t[1..];
      assert u == [u[0]] + u[1..];
    }
  }

  /** Two non-empty ordered lists with the same tie groups start alike. */
  lemma SameHead(t: seq<PersonResponse>, u: seq<PersonResponse>, f: SortField, o: SortOrderOptions)
    requires t != [] && u != [] && Sorted(t, f, o) && Sorted(u, f, o)
    requires KeepsTieOrder(t, u, f)
    ensures t[0] == u[0]
  {
    // t[0] and u[0] each occur in the other list, so each precedes the other
    TiesOfMembers(t, t[0], t[0], f);
    TiesOfMembers(u, t[0], t[0], f);
    TiesOfMembers(u, u[0], u[0], f);
    TiesOfMembers(t, u[0], u[0], f);
    assert TiesOf(t, t[0], f) == TiesOf(u, t[0], f);
    assert TiesOf(t, u[0], f) == TiesOf(u, u[0], f);
    var i :| 0 <= i < |u| && u[i] == t[0];
    var j :| 0 <= j < |t| && t[j] == u[0];
    PrecedesTotalPreorder(u[0], u[0], u[0], f, o);
    assert Precedes(u[0], t[0], f, o);
    assert Precedes(t[0], u[0], f, o);
    PrecedesTotalPreorder(t[0], u[0], t[0], f, o);
    PrecedesTotalPreorder(t[0], t[0], t[0], f, o);
    // the heads lead the same tie group, so they are the same element
    assert TiesOf(t, t[0], f)[0] == t[0];
    assert TiesOf(u, t[0], f)[0] == u[0];
  }

  /** Removing a common head keeps the tie groups equal. */
  lemma SameTailTies(t: seq<PersonResponse>, u: seq<PersonResponse>, f: SortField)
    requires t != [] && u != [] && t[0] == u[0]
    requires KeepsTieOrder(t, u, f)
    ensures KeepsTieOrder(t[1..], u[1..], f)
  {
    forall k ensures TiesOf(t[1..], k, f) == TiesOf(u[1..], k, f) {
      var head := if Tied(t[0], k, f) then [t[0]] else [];
      assert TiesOf(t, k, f) == head + TiesOf(t[1..], k, f);
      assert TiesOf(u, k, f) == head + TiesOf(u[1..], k, f);
      assert TiesOf(t, k, f) == TiesOf(u, k, f);
      assert TiesOf(t[1..], k, f) == (head + TiesOf(t[1..], k, f))[|head|..];
      assert TiesOf(u[1..], k, f) == (head + TiesOf(u[1..], k, f))[|head|..];
    }
  }

  /** The three properties determine the sort: any list ordered by the key
      that keeps the input's tie groups in input order is the sort's result. */
  lemma StableSortIsUnique(s: seq<PersonResponse>, r: seq<PersonResponse>, f: SortField, o: SortOrderOptions)
    requires Sorted(r, f, o) && KeepsTieOrder(r, s, f)
    ensures r == StableSort(s, f, o)
  {
    SortedWithSameTiesAreEqual(r, StableSort(s, f, o), f, o);
  }

  /** Sorting twice by the same key and direction is sorting once. */
  lemma StableSortIdempotent(s: seq<PersonResponse>, f: SortField, o: SortOrderOptions)
    ensures StableSort(StableSort(s, f, o), f, o) == StableSort(s, f, o)
  {
    var r := StableSort(s, f, o);
    StableSortIsUnique(r, r, f, o);
  }

  /** The list in reverse order. */
  function Reverse(s: seq<PersonResponse>): (r: seq<PersonResponse>)
    ensures |r| == |s|
    ensures forall i :: 0 <= i < |s| ==> r[i] == s[|s| - 1 - i]
  {
    if s == [] then [] else Reverse(s[1..]) + [s[0]]
  }

  /** No two elements of `s` have equal keys. */
  ghost predicate NoTies(s: seq<PersonResponse>, f: SortField) {
    forall i, j :: 0 <= i < j < |s| ==> !Tied(s[i], s[j], f)
  }

  lemma {:induction false} TiesOfAppend(a: seq<PersonResponse>, b: seq<PersonResponse>, k: PersonResponse, f: SortField)
    ensures TiesOf(a + b, k, f) == TiesOf(a, k, f) + TiesOf(b, k, f)
  {
    if a != [] {
      assert (a + b)[1..] == a[1..] + b;
      TiesOfAppend(a[1..], b, k, f);
    } else {
      assert a + b == b;
    }
  }

  lemma {:induction false} TiesOfReverse(s: seq<PersonResponse>, k: PersonResponse, f: SortField)
    ensures TiesOf(Reverse(s), k, f) == Reverse(TiesOf(s, k, f))
  {
    if s != [] {
      TiesOfReverse(s[1..], k, f);
      TiesOfAppend(Reverse(s[1..]), [s[0]], k, f);
      assert [s[0]][1..] == [];
      var head := if Tied(s[0], k, f) then [s[0]] else [];
      assert TiesOf(s, k, f) == head + TiesOf(s[1..], k, f);
      assert Reverse(head + TiesOf(s[1..], k, f)) == Reverse(TiesOf(s[1..], k, f)) + head;
    }
  }

  /** Without ties, every tie group has at most one element. */
  lemma {:induction false} NoTiesSingletonGroups(s: seq<PersonResponse>, k: PersonResponse, f: SortField)
    requires NoTies(s, f)
    ensures |TiesOf(s, k, f)| <= 1
  {
    if s != [] {
      assert NoTies(s[1..], f) by {
        forall i, j | 0 <= i < j < |s[1..]| ensures !Tied(s[1..][i], s[1..][j], f) {
          assert s[1..][i] == s[i + 1] && s[1..][j] == s[j + 1];
        }
      }
      NoTiesSingletonGroups(s[1..], k, f);
      if Tied(s[0], k, f) && TiesOf(s[1..], k, f) != [] {
        var x := TiesOf(s[1..], k, f)[0];
        TiesOfMembers(s[1..], x, k, f);
        var j :| 0 <= j < |s[1..]| && s[1..][j] == x;
        PrecedesTotalPreorder(s[0], k, x, f, ASC);
        PrecedesTotalPreorder(x, k, s[0], f, ASC);
        assert Tied(s[0], s[j + 1], f);
        assert false;
      }
    }
  }

  /** When no two keys are equal, sorting descending gives exactly the reverse
      of sorting ascending. */
  lemma DescendingReversesAscending(s: seq<PersonResponse>, f: SortField)
    requires NoTies(s, f)
    ensures StableSort(s, f, DESC) == Reverse(StableSort(s, f, ASC))
  {
    var u := StableSort(s, f, ASC);
    var t := Reverse(u);
    forall k ensures TiesOf(t, k, f) == TiesOf(s, k, f) {
      TiesOfReverse(u, k, f);
      NoTiesSingletonGroups(s, k, f);
      var g := TiesOf(s, k, f);
      assert TiesOf(u, k, f) == g;
      assert Reverse(g) == g;
    }
    StableSortIsUnique(s, t, f, DESC);
  }

  /** `GetSortedPersons`: an empty or null key, or one the dispatch does not
      recognise, returns the list itself; otherwise the list sorted stably by
      the key in the requested direction. */
  function GetSortedPersons(allPersons: seq<PersonResponse>, sortBy: Option<string>, order: SortOrderOptions)
    : (r: seq<PersonResponse>)
    ensures IsNullOrEmpty(sortBy) || SortFieldOf(sortBy.value).None? ==> r == allPersons
    ensures !IsNullOrEmpty(sortBy) && SortFieldOf(sortBy.value).Some? ==>
      var f := SortFieldOf(sortBy.value).value;
      multiset(r) == multiset(allPersons) && Sorted(r, f, order) && KeepsTieOrder(r, allPersons, f)
    ensures sortBy == Some("Email") ==> Sorted(r, ByPersonName, order)
  {
    if IsNullOrEmpty(sortBy) then allPersons
    else
      match SortFieldOf(sortBy.value)
      case None => allPersons
      case Some(f) => StableSort(allPersons, f, order)
  }
}
