/**
 * The filters and aggregates of `ContactRepository`, over the table as a sequence of
 * rows. Each derived or JPQL query is one `Query` value; `Matches` is its WHERE
 * clause; `Where` and `CountWhere` evaluate SELECT and SELECT COUNT over the table.
 * Result order is the table's except for `FindRecentContacts`, which sorts.
 */
module Repository {
  import opened Wrappers
  import opened Text
  import opened Model

  /** The WHERE clauses of the repository's query methods. */
  datatype Query =
    | ByCategory(category: string)
    | ByIsActive(isActive: bool)
    | ByCategoryAndIsActive(category: string, isActive: bool)
    | NameContainingIgnoreCase(firstName: string, lastName: string)
    | ActiveInCategory(category: string)
    | NameLike(name: string)
    | ActiveInCategories(categories: seq<string>)
    | CreatedSince(date: Timestamp)
    | Advanced(firstNameLike: Option<string>, lastNameLike: Option<string>, categoryIs: Option<string>, isActiveIs: Option<bool>)
    | EmailDomain(domain: string)

  predicate Matches(q: Query, c: Contact) {
    match q
    case ByCategory(k) => c.category == k
    case ByIsActive(a) => c.isActive == a
    case ByCategoryAndIsActive(k, a) => c.category == k && c.isActive == a
    case NameContainingIgnoreCase(f, l) => ContainsIgnoreCase(c.firstName, f) || ContainsIgnoreCase(c.lastName, l)
    case ActiveInCategory(k) => c.category == k && c.isActive
    case NameLike(n) => ContainsIgnoreCase(c.firstName, n) || ContainsIgnoreCase(c.lastName, n)
    case ActiveInCategories(ks) => c.category in ks && c.isActive
    case CreatedSince(d) => c.creationDate >= d
    case Advanced(f, l, k, a) =>
      && (f == None || ContainsIgnoreCase(c.firstName, f.value))
      && (l == None || ContainsIgnoreCase(c.lastName, l.value))
      && (k == None || c.category == k.value)
      && (a == None || c.isActive == a.value)
    case EmailDomain(dom) => EndsWith(c.email, "@" + dom)
  }

  /** SELECT c FROM Contact c WHERE q: the matching rows, in table order. */
  function Where(t: seq<Contact>, q: Query): (r: seq<Contact>)
    ensures |r| <= |t|
    ensures forall c :: c in r <==> c in t && Matches(q, c)
  {
    if t == [] then []
    else if Matches(q, t[0]) then [t[0]] + Where(t[1..], q)
    else Where(t[1..], q)
  }

  /** SELECT COUNT(c) FROM Contact c WHERE q. */
  function CountWhere(t: seq<Contact>, q: Query): nat {
    if t == [] then 0
    else (if Matches(q, t[0]) then 1 else 0) + CountWhere(t[1..], q)
  }

  /** A count query returns the size of the corresponding select. */
  lemma {:induction false} CountWhereIsWhereLength(t: seq<Contact>, q: Query)
    ensures CountWhere(t, q) == |Where(t, q)|
  {
    if t != [] {
      CountWhereIsWhereLength(t[1..], q);
    }
  }

  /** A filter that every row passes returns the whole table. */
  lemma {:induction false} WhereAll(t: seq<Contact>, q: Query)
    requires forall i :: 0 <= i < |t| ==> Matches(q, t[i])
    ensures Where(t, q) == t
  {
    if t != [] {
      WhereAll(t[1..], q);
    }
  }

  /** A filter that no row passes returns nothing. */
  lemma {:induction false} WhereNone(t: seq<Contact>, q: Query)
    requires forall i :: 0 <= i < |t| ==> !Matches(q, t[i])
    ensures Where(t, q) == []
  {
    if t != [] {
      WhereNone(t[1..], q);
    }
  }

  /** Two filters that agree on every row return the same rows in the same order. */
  lemma {:induction false} WhereSame(t: seq<Contact>, q1: Query, q2: Query)
    requires forall i :: 0 <= i < |t| ==> (Matches(q1, t[i]) <==> Matches(q2, t[i]))
    ensures Where(t, q1) == Where(t, q2)
  {
    if t != [] {
      WhereSame(t[1..], q1, q2);
    }
  }

  /** Two complementary filters split the table: their counts add up to its size. */
  lemma {:induction false} CountComplement(t: seq<Contact>, q1: Query, q2: Query)
    requires forall i :: 0 <= i < |t| ==> (Matches(q1, t[i]) <==> !Matches(q2, t[i]))
    ensures CountWhere(t, q1) + CountWhere(t, q2) == |t|
  {
    if t != [] {
      CountComplement(t[1..], q1, q2);
    }
  }

  /** When every row passing q1 passes q2, q1 counts no more rows than q2. */
  lemma {:induction false} CountMonotone(t: seq<Contact>, q1: Query, q2: Query)
    requires forall i :: 0 <= i < |t| ==> (Matches(q1, t[i]) ==> Matches(q2, t[i]))
    ensures CountWhere(t, q1) <= CountWhere(t, q2)
  {
    if t != [] {
      CountMonotone(t[1..], q1, q2);
    }
  }

  /** A row that passes the filter makes the count positive. */
  lemma {:induction false} CountPositive(t: seq<Contact>, q: Query, c: Contact)
    requires c in t && Matches(q, c)
    ensures CountWhere(t, q) > 0
  {
    if t[0] != c {
      CountPositive(t[1..], q, c);
    }
  }

  // ---------------------------------------------------------------------------
  // The repository's query methods
  // ---------------------------------------------------------------------------

  /** findByCategory */
  function FindByCategory(t: seq<Contact>, category: string): (r: seq<Contact>)
    ensures forall c :: c in r <==> c in t && c.category == category
  {
    Where(t, ByCategory(category))
  }

  /** findByIsActive */
  function FindByIsActive(t: seq<Contact>, isActive: bool): (r: seq<Contact>)
    ensures forall c :: c in r <==> c in t && c.isActive == isActive
  {
    Where(t, ByIsActive(isActive))
  }

  /** findByCategoryAndIsActive */
  function FindByCategoryAndIsActive(t: seq<Contact>, category: string, isActive: bool): (r: seq<Contact>)
    ensures forall c :: c in r <==> c in t && c.category == category && c.isActive == isActive
  {
    Where(t, ByCategoryAndIsActive(category, isActive))
  }

  /** findByFirstNameContainingIgnoreCaseOrLastNameContainingIgnoreCase */
  function FindByFirstOrLastNameContainingIgnoreCase(t: seq<Contact>, firstName: string, lastName: string): (r: seq<Contact>)
    ensures forall c :: c in r <==>
      c in t && (Contains(Lower(c.firstName), Lower(firstName)) || Contains(Lower(c.lastName), Lower(lastName)))
  {
    Where(t, NameContainingIgnoreCase(firstName, lastName))
  }

  /** findActiveContactsByCategory, without its paging */
  function FindActiveContactsByCategory(t: seq<Contact>, category: string): (r: seq<Contact>)
    ensures forall c :: c in r <==> c in t && c.category == category && c.isActive
  {
    Where(t, ActiveInCategory(category))
  }

  /** searchByName, without its paging */
  function SearchByName(t: seq<Contact>, name: string): (r: seq<Contact>)
    ensures forall c :: c in r <==>
      c in t && (Contains(Lower(c.firstName), Lower(name)) || Contains(Lower(c.lastName), Lower(name)))
  {
    Where(t, NameLike(name))
  }

  /** findByCategories: active rows whose category is one of the given labels */
  function FindByCategories(t: seq<Contact>, categories: seq<string>): (r: seq<Contact>)
    ensures forall c :: c in r <==> c in t && c.isActive && c.category in categories
  {
    Where(t, ActiveInCategories(categories))
  }

  /** countActiveContactsByCategory */
  function CountActiveContactsByCategory(t: seq<Contact>, category: string): (n: nat)
    ensures n == |FindActiveContactsByCategory(t, category)|
  {
    CountWhereIsWhereLength(t, ActiveInCategory(category));
    CountWhere(t, ActiveInCategory(category))
  }

  /** countByCategory */
  function CountByCategory(t: seq<Contact>, category: string): (n: nat)
    ensures n == |FindByCategory(t, category)|
  {
    CountWhereIsWhereLength(t, ByCategory(category));
    CountWhere(t, ByCategory(category))
  }

  /** searchContacts, without its paging: an absent criterion restricts nothing */
  function SearchContacts(t: seq<Contact>, firstName: Option<string>, lastName: Option<string>,
                          category: Option<string>, isActive: Option<bool>): (r: seq<Contact>)
    ensures forall c :: c in r <==>
      (c in t
      && (firstName == None || Contains(Lower(c.firstName), Lower(firstName.value)))
      && (lastName == None || Contains(Lower(c.lastName), Lower(lastName.value)))
      && (category == None || c.category == category.value)
      && (isActive == None || c.isActive == isActive.value))
  {
    Where(t, Advanced(firstName, lastName, category, isActive))
  }

  /** findByEmailDomain: rows whose email is some local part, then "@", then the domain */
  function FindByEmailDomain(t: seq<Contact>, domain: string): (r: seq<Contact>)
    ensures forall c :: c in r <==> c in t && exists local :: c.email == local + "@" + domain
  {
    forall s ensures EndsWith(s, "@" + domain) <==> exists local :: s == local + "@" + domain {
      EndsWithIff(s, "@" + domain);
      forall local ensures local + "@" + domain == local + ("@" + domain) { }
    }
    Where(t, EmailDomain(domain))
  }

  // ---------------------------------------------------------------------------
  // findRecentContacts: WHERE creationDate >= :date ORDER BY creationDate DESC
  // ---------------------------------------------------------------------------

  predicate NewestFirst(s: seq<Contact>) {
    forall i, j :: 0 <= i < j < |s| ==> s[i].creationDate >= s[j].creationDate
  }

  /** No row of s was created after the given time. */
  predicate CreatedNoLaterThan(s: seq<Contact>, date: Timestamp) {
    forall j :: 0 <= j < |s| ==> s[j].creationDate <= date
  }

  lemma BoundOfPermutation(r: seq<Contact>, s: seq<Contact>, c: Contact, date: Timestamp)
    requires multiset(r) == multiset(s) + multiset{c}
    requires CreatedNoLaterThan(s, date) && c.creationDate <= date
    ensures CreatedNoLaterThan(r, date)
  {
    forall j | 0 <= j < |r| ensures r[j].creationDate <= date {
      assert r[j] in multiset(r);
      if r[j] != c {
        assert r[j] in multiset(s);
        var k :| 0 <= k < |s| && s[k] == r[j];
      }
    }
  }

  lemma ConsNewestFirst(x: Contact, s: seq<Contact>)
    requires NewestFirst(s) && CreatedNoLaterThan(s, x.creationDate)
    ensures NewestFirst([x] + s)
  {
    var r := [x] + s;
    forall i, j | 0 <= i < j < |r| ensures r[i].creationDate >= r[j].creationDate {
      assert r[j] == s[j - 1];
      if i > 0 {
        assert r[i] == s[i - 1];
      }
    }
  }

  function InsertNewestFirst(c: Contact, s: seq<Contact>): (r: seq<Contact>)
    requires NewestFirst(s)
    ensures NewestFirst(r)
    ensures multiset(r) == multiset(s) + multiset{c}
  {
    if s == [] || s[0].creationDate <= c.creationDate then
      assert CreatedNoLaterThan(s, c.creationDate) by {
        forall j | 0 <= j < |s| ensures s[j].creationDate <= c.creationDate {
          assert s[j].creationDate <= s[0].creationDate;
        }
      }
      ConsNewestFirst(c, s);
      [c] + s
    else
      var rest := InsertNewestFirst(c, s[1..]);
      assert s == [s[0]] + s[1..];
      BoundOfPermutation(rest, s[1..], c, s[0].creationDate);
      ConsNewestFirst(s[0], rest);
      [s[0]] + rest
  }

  /** Orders rows by creation date, newest first (ties in no promised order). */
  function SortNewestFirst(s: seq<Contact>): (r: seq<Contact>)
    ensures NewestFirst(r)
    ensures multiset(r) == multiset(s)
  {
    if s == [] then []
    else
      assert s == [s[0]] + s[1..];
      InsertNewestFirst(s[0], SortNewestFirst(s[1..]))
  }

  /** Sequences that are permutations of each other hold the same elements. */
  lemma SameElements(a: seq<Contact>, b: seq<Contact>)
    requires multiset(a) == multiset(b)
    ensures forall c :: c in a <==> c in b
  {
    forall c ensures c in a <==> c in b {
      assert (c in a) == (c in multiset(a));
      assert (c in b) == (c in multiset(b));
    }
  }

  /** findRecentContacts */
  function FindRecentContacts(t: seq<Contact>, date: Timestamp): (r: seq<Contact>)
    ensures NewestFirst(r)
    ensures multiset(r) == multiset(Where(t, CreatedSince(date)))
    ensures forall c :: c in r <==> c in t && c.creationDate >= date
  {
    var w := Where(t, CreatedSince(date));
    var r := SortNewestFirst(w);
    SameElements(r, w);
    r
  }

  // ---------------------------------------------------------------------------
  // getContactCountByCategory: SELECT category, COUNT(c) ... GROUP BY category
  // ---------------------------------------------------------------------------

  predicate Distinct(ks: seq<string>) {
    forall i, j :: 0 <= i < j < |ks| ==> ks[i] != ks[j]
  }

  /** The distinct categories of the table. */
  function Categories(t: seq<Contact>): (ks: seq<string>)
    ensures Distinct(ks)
    ensures forall i :: 0 <= i < |t| ==> t[i].category in ks
    ensures forall k :: k in ks ==> exists c :: c in t && c.category == k
  {
    if t == [] then []
    else
      var rest := Categories(t[1..]);
      assert forall i :: 1 <= i < |t| ==> t[i] == t[1..][i - 1];
      if t[0].category in rest then rest else [t[0].category] + rest
  }

  /** One (category, count) row per given category. */
  function Tally(t: seq<Contact>, ks: seq<string>): (rows: seq<(string, nat)>)
    ensures |rows| == |ks|
    ensures forall i :: 0 <= i < |ks| ==> rows[i] == (ks[i], CountWhere(t, ByCategory(ks[i])))
  {
    if ks == [] then []
    else [(ks[0], CountWhere(t, ByCategory(ks[0])))] + Tally(t, ks[1..])
  }

  /** The sum of the count column. */
  function Total(rows: seq<(string, nat)>): nat {
    if rows == [] then 0 else rows[0].1 + Total(rows[1..])
  }

  /** getContactCountByCategory: one row per distinct category, with its positive count */
  function GetContactCountByCategory(t: seq<Contact>): (rows: seq<(string, nat)>)
    ensures forall i, j :: 0 <= i < j < |rows| ==> rows[i].0 != rows[j].0
    ensures forall c :: c in t ==> exists i :: 0 <= i < |rows| && rows[i].0 == c.category
    ensures forall i :: 0 <= i < |rows| ==>
      rows[i].1 == CountByCategory(t, rows[i].0) && rows[i].1 > 0
  {
    var ks := Categories(t);
    var rows := Tally(t, ks);
    forall i | 0 <= i < |rows| ensures rows[i].1 > 0 {
      assert ks[i] in ks;
      var c :| c in t && c.category == ks[i];
      CountPositive(t, ByCategory(ks[i]), c);
    }
    forall c | c in t ensures exists i :: 0 <= i < |rows| && rows[i].0 == c.category {
      var j :| 0 <= j < |t| && t[j] == c;
      var i :| 0 <= i < |ks| && ks[i] == c.category;
      assert rows[i].0 == c.category;
    }
    rows
  }

  lemma {:induction false} TallyOfEmptyTable(ks: seq<string>)
    ensures Total(Tally([], ks)) == 0
  {
    if ks != [] {
      TallyOfEmptyTable(ks[1..]);
    }
  }

  /** Removing the first row lowers the tally by one exactly when its category is tallied. */
  lemma {:induction false} TallyStep(t: seq<Contact>, ks: seq<string>)
    requires t != [] && Distinct(ks)
    ensures Total(Tally(t, ks)) == Total(Tally(t[1..], ks)) + (if t[0].category in ks then 1 else 0)
  {
    if ks != [] {
      assert Distinct(ks[1..]) by {
        forall i, j | 0 <= i < j < |ks[1..]| ensures ks[1..][i] != ks[1..][j] {
          assert ks[1..][i] == ks[i + 1] && ks[1..][j] == ks[j + 1];
        }
      }
      TallyStep(t, ks[1..]);
      assert t[0].category == ks[0] ==> t[0].category !in ks[1..];
      assert t[0].category in ks <==> t[0].category == ks[0] || t[0].category in ks[1..];
    }
  }

  /** Tallying distinct categories that cover the table counts every row exactly once. */
  lemma {:induction false} TallyCoversTable(t: seq<Contact>, ks: seq<string>)
    requires Distinct(ks)
    requires forall i :: 0 <= i < |t| ==> t[i].category in ks
    ensures Total(Tally(t, ks)) == |t|
  {
    if t == [] {
      TallyOfEmptyTable(ks);
    } else {
      assert t[0].category in ks;
      TallyStep(t, ks);
      TallyCoversTable(t[1..], ks);
    }
  }

  /** The group counts sum to the number of contacts. */
  lemma CategoryCountsSumToTotal(t: seq<Contact>)
    ensures Total(GetContactCountByCategory(t)) == |t|
  {
    TallyCoversTable(t, Categories(t));
  }

  // ---------------------------------------------------------------------------
  // How the queries relate to one another
  // ---------------------------------------------------------------------------

  /** searchContacts with every criterion null returns every contact. */
  lemma SearchContactsAllAbsent(t: seq<Contact>)
    ensures SearchContacts(t, None, None, None, None) == t
  {
    WhereAll(t, Advanced(None, None, None, None));
  }

  /** searchContacts on isActive alone is findByIsActive, for true and for false alike. */
  lemma SearchContactsByStatus(t: seq<Contact>, isActive: bool)
    ensures SearchContacts(t, None, None, None, Some(isActive)) == FindByIsActive(t, isActive)
  {
    WhereSame(t, Advanced(None, None, None, Some(isActive)), ByIsActive(isActive));
  }

  /** searchContacts on category and isActive is findByCategoryAndIsActive. */
  lemma SearchContactsByCategoryAndStatus(t: seq<Contact>, category: string, isActive: bool)
    ensures SearchContacts(t, None, None, Some(category), Some(isActive))
         == FindByCategoryAndIsActive(t, category, isActive)
  {
    WhereSame(t, Advanced(None, None, Some(category), Some(isActive)), ByCategoryAndIsActive(category, isActive));
  }

  /** The active and the inactive contacts together are the whole table. */
  lemma StatusSplitsTable(t: seq<Contact>)
    ensures |FindByIsActive(t, true)| + |FindByIsActive(t, false)| == |t|
  {
    CountComplement(t, ByIsActive(true), ByIsActive(false));
    CountWhereIsWhereLength(t, ByIsActive(true));
    CountWhereIsWhereLength(t, ByIsActive(false));
  }

  /** isActive = false is a real filter, not the same as leaving isActive null. */
  lemma SearchContactsFalseIsNotAbsent(t: seq<Contact>, c: Contact)
    requires c in t && c.isActive
    ensures SearchContacts(t, None, None, None, Some(false)) != SearchContacts(t, None, None, None, None)
  {
    SearchContactsAllAbsent(t);
    SearchContactsByStatus(t, false);
    StatusSplitsTable(t);
    assert c in FindByIsActive(t, true);
  }

  /** searchByName is the derived first-or-last-name query called with the name twice. */
  lemma SearchByNameIsDerivedQuery(t: seq<Contact>, name: string)
    ensures SearchByName(t, name) == FindByFirstOrLastNameContainingIgnoreCase(t, name, name)
  {
    WhereSame(t, NameLike(name), NameContainingIgnoreCase(name, name));
  }

  /** searchByName matches the union of the first-name-only and last-name-only searches. */
  lemma SearchByNameIsUnion(t: seq<Contact>, name: string)
    ensures forall c :: c in SearchByName(t, name) <==>
      c in SearchContacts(t, Some(name), None, None, None) || c in SearchContacts(t, None, Some(name), None, None)
  {
  }

  /** searchByName does not depend on the case of the searched name. */
  lemma SearchByNameIgnoresCase(t: seq<Contact>, name: string)
    ensures SearchByName(t, name) == SearchByName(t, Lower(name))
  {
    LowerIdempotent(name);
    WhereSame(t, NameLike(name), NameLike(Lower(name)));
  }

  /** findByCategories with an empty list selects nothing. */
  lemma FindByCategoriesEmpty(t: seq<Contact>)
    ensures FindByCategories(t, []) == []
  {
    WhereNone(t, ActiveInCategories([]));
  }

  /** findByCategories with one label is findActiveContactsByCategory. */
  lemma FindByCategoriesSingleton(t: seq<Contact>, category: string)
    ensures FindByCategories(t, [category]) == FindActiveContactsByCategory(t, category)
  {
    WhereSame(t, ActiveInCategories([category]), ActiveInCategory(category));
  }

  /** A category never has more active contacts than contacts. */
  lemma ActiveCountAtMostCategoryCount(t: seq<Contact>, category: string)
    ensures CountActiveContactsByCategory(t, category) <= CountByCategory(t, category)
  {
    CountMonotone(t, ActiveInCategory(category), ByCategory(category));
  }
}
