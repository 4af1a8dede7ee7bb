/**
 * `ContactService`: the DTO/entity conversions, the service-level query wrappers,
 * and the create/update/delete/find-by-id operations over the contact store. The
 * store stands for the `contacts` table behind `JpaRepository`: a map from primary
 * key to row and the identity counter that hands out the next key.
 */
module Service {
  import opened Wrappers
  import opened Model
  import Repository

  /** `LocalDateTime.minusDays`: the clock counts seconds. */
  const SecondsPerDay: int := 86400

  function MinusDays(now: Timestamp, days: int): Timestamp {
    now - days * SecondsPerDay
  }

  /** convertToDTO: every column of the row goes to the DTO. */
  function ConvertToDto(c: Contact): (d: ContactDto)
    ensures d.id == Some(c.id) && d.isActive == Some(c.isActive) && d.creationDate == Some(c.creationDate)
    ensures d.firstName == c.firstName && d.lastName == c.lastName && d.phoneNo == c.phoneNo
    ensures d.email == c.email && d.category == c.category
  {
    ContactDto(Some(c.id), c.firstName, c.lastName, c.phoneNo, c.email, Some(c.isActive), c.category, Some(c.creationDate))
  }

  /**
   * convertToEntity: a fresh entity (whose isActive starts out true) gets the DTO's
   * id when there is one, the five text fields, and the DTO's isActive or else true.
   * The DTO's creation date is not copied.
   */
  function ConvertToEntity(d: ContactDto): (e: Entity)
    ensures e.id == d.id && e.creationDate == None
    ensures d.isActive == None ==> e.isActive == Some(true)
    ensures d.isActive != None ==> e.isActive == d.isActive
    ensures e.firstName == d.firstName && e.lastName == d.lastName && e.phoneNo == d.phoneNo
    ensures e.email == d.email && e.category == d.category
    ensures DtoIsComplete(d) <==> EntityIsComplete(e)
  {
    var created := Entity(None, d.firstName, d.lastName, d.phoneNo, d.email, Some(true), d.category, None);
    var withId := if d.id != None then created.(id := d.id) else created;
    withId.(isActive := Some(if d.isActive != None then d.isActive.value else true))
  }

  /** A row converted to a DTO and back to an entity keeps every field the entity conversion copies. */
  lemma DtoRoundTrip(c: Contact)
    ensures ConvertToEntity(ConvertToDto(c))
         == Entity(Some(c.id), c.firstName, c.lastName, c.phoneNo, c.email, Some(c.isActive), c.category, None)
  {
  }

  /** No column is lost on the way out: distinct rows give distinct DTOs. */
  lemma ConvertToDtoInjective(a: Contact, b: Contact)
    requires ConvertToDto(a) == ConvertToDto(b)
    ensures a == b
  {
  }

  /**
   * A create request inserted under a fresh key (it has no id, or an id that is not
   * stored), read back: the request with the key, the creation date and a non-null
   * isActive filled in.
   */
  lemma CreateRoundTrip(d: ContactDto, id: Id, now: Timestamp)
    ensures ConvertToDto(Inserted(ConvertToEntity(d), id, now))
         == d.(id := Some(id), isActive := Some(d.isActive.GetOr(true)), creationDate := Some(now))
  {
  }

  /**
   * A create request whose id is stored is merged into that row; read back, it is the
   * request with the stored key, the stored creation date and a non-null isActive.
   */
  lemma CreateMergeRoundTrip(d: ContactDto, stored: Contact)
    ensures ConvertToDto(Merged(stored, ConvertToEntity(d)))
         == d.(id := Some(stored.id), isActive := Some(d.isActive.GetOr(true)),
               creationDate := Some(stored.creationDate))
  {
  }

  /** The setters updateContact applies to the loaded row. */
  function ApplyUpdate(c: Contact, d: ContactDto): (u: Contact)
    ensures u.id == c.id && u.creationDate == c.creationDate
    ensures u.firstName == d.firstName && u.lastName == d.lastName && u.phoneNo == d.phoneNo
    ensures u.email == d.email && u.category == d.category
    ensures d.isActive == None ==> u.isActive == c.isActive
    ensures d.isActive != None ==> Some(u.isActive) == d.isActive
    ensures ContactIsComplete(u) <==> DtoIsComplete(d)
  {
    var u := c.(firstName := d.firstName, lastName := d.lastName, phoneNo := d.phoneNo,
                email := d.email, category := d.category);
    if d.isActive != None then u.(isActive := d.isActive.value) else u
  }

  /** Sending the same update twice leaves the row as sending it once did. */
  lemma UpdateIdempotent(c: Contact, d: ContactDto)
    ensures ApplyUpdate(ApplyUpdate(c, d), d) == ApplyUpdate(c, d)
  {
  }

  /** An update's response echoes the request, with the stored id, creation date and, when omitted, status. */
  lemma UpdateResponse(c: Contact, d: ContactDto)
    ensures ConvertToDto(ApplyUpdate(c, d))
         == d.(id := Some(c.id), isActive := Some(d.isActive.GetOr(c.isActive)), creationDate := Some(c.creationDate))
  {
  }

  // ---------------------------------------------------------------------------
  // Query wrappers
  // ---------------------------------------------------------------------------

  function MapToDto(s: seq<Contact>): (r: seq<ContactDto>)
    ensures |r| == |s| && forall i :: 0 <= i < |s| ==> r[i] == ConvertToDto(s[i])
  {
    seq(|s|, i requires 0 <= i < |s| => ConvertToDto(s[i]))
  }

  /** getRecentContacts: the contacts created at or after `days` days before `now`, newest first. */
  function GetRecentContacts(t: seq<Contact>, days: int, now: Timestamp): (r: seq<ContactDto>)
    ensures forall d :: d in r <==>
      exists c :: c in t && c.creationDate >= MinusDays(now, days) && d == ConvertToDto(c)
    ensures forall i, j :: 0 <= i < j < |r| ==>
      r[i].creationDate != None && r[j].creationDate != None &&
      r[i].creationDate.value >= r[j].creationDate.value
  {
    var recent := Repository.FindRecentContacts(t, MinusDays(now, days));
    var r := MapToDto(recent);
    forall d | d in r ensures exists c :: c in t && c.creationDate >= MinusDays(now, days) && d == ConvertToDto(c) {
      var i :| 0 <= i < |r| && r[i] == d;
      assert recent[i] in recent;
    }
    forall c | c in t && c.creationDate >= MinusDays(now, days) ensures ConvertToDto(c) in r {
      var i :| 0 <= i < |recent| && recent[i] == c;
      assert r[i] == ConvertToDto(c);
    }
    r
  }

  function CountsToDtos(rows: seq<(string, nat)>): (r: seq<CategoryCount>)
    ensures |r| == |rows| && forall i :: 0 <= i < |rows| ==> r[i] == CategoryCount(rows[i].0, rows[i].1)
  {
    seq(|rows|, i requires 0 <= i < |rows| => CategoryCount(rows[i].0, rows[i].1))
  }

  /** The statistics DTOs back as repository rows. */
  function AsRows(r: seq<CategoryCount>): (rows: seq<(string, nat)>)
    ensures |rows| == |r| && forall i :: 0 <= i < |r| ==> rows[i] == (r[i].category, r[i].count)
  {
    seq(|r|, i requires 0 <= i < |r| => (r[i].category, r[i].count))
  }

  /** getContactCountsByCategory: one row per distinct category; the counts add up to all contacts. */
  function GetContactCountsByCategory(t: seq<Contact>): (r: seq<CategoryCount>)
    ensures forall i, j :: 0 <= i < j < |r| ==> r[i].category != r[j].category
    ensures forall c :: c in t ==> exists i :: 0 <= i < |r| && r[i].category == c.category
    ensures forall i :: 0 <= i < |r| ==>
      r[i].count == Repository.CountByCategory(t, r[i].category) && r[i].count > 0
    ensures Repository.Total(AsRows(r)) == |t|
  {
    var rows := Repository.GetContactCountByCategory(t);
    Repository.CategoryCountsSumToTotal(t);
    var r := CountsToDtos(rows);
    assert AsRows(r) == rows;
    forall i | 0 <= i < |r|
      ensures r[i].count == Repository.CountByCategory(t, r[i].category) && r[i].count > 0
    {
      assert r[i] == CategoryCount(rows[i].0, rows[i].1);
    }
    forall c | c in t ensures exists i :: 0 <= i < |r| && r[i].category == c.category {
      var i :| 0 <= i < |rows| && rows[i].0 == c.category;
      assert r[i].category == c.category;
    }
    r
  }

  // ---------------------------------------------------------------------------
  // Queries run over a listing of the store
  // ---------------------------------------------------------------------------

  /** t lists the stored rows: each stored row exactly once and nothing else, in any order. */
  ghost predicate Lists(t: seq<Contact>, rows: map<Id, Contact>) {
    && (forall i :: 0 <= i < |t| ==> t[i].id in rows && rows[t[i].id] == t[i])
    && (forall i, j :: 0 <= i < j < |t| ==> t[i].id != t[j].id)
    && (forall id :: id in rows ==> exists i :: 0 <= i < |t| && t[i].id == id)
  }

  /** The keys of the stored rows a filter accepts. */
  ghost function MatchingKeys(rows: map<Id, Contact>, q: Repository.Query): set<Id> {
    KeysWhere(rows, c => Repository.Matches(q, c))
  }

  ghost function KeysWhere(rows: map<Id, Contact>, p: Contact -> bool): set<Id> {
    set id | id in rows && p(rows[id])
  }

  lemma KeysWhereInsert(rows: map<Id, Contact>, c: Contact, p: Contact -> bool)
    requires c.id !in rows
    ensures |KeysWhere(rows[c.id := c], p)| == |KeysWhere(rows, p)| + (if p(c) then 1 else 0)
  {
    var before, after := KeysWhere(rows, p), KeysWhere(rows[c.id := c], p);
    if p(c) {
      assert after == before + {c.id};
    } else {
      assert after == before;
    }
  }

  lemma MatchingKeysInsert(rows: map<Id, Contact>, c: Contact, q: Repository.Query)
    requires c.id !in rows
    ensures |MatchingKeys(rows[c.id := c], q)| == |MatchingKeys(rows, q)| + (if Repository.Matches(q, c) then 1 else 0)
  {
    KeysWhereInsert(rows, c, c => Repository.Matches(q, c));
  }

  lemma RestoreKey(rows: map<Id, Contact>, id: Id)
    requires id in rows
    ensures rows == (rows - {id})[id := rows[id]]
  {
  }

  /** In a listed store every row sits under its own key. */
  lemma ListedRowKey(t: seq<Contact>, rows: map<Id, Contact>, id: Id)
    requires Lists(t, rows) && id in rows
    ensures rows[id].id == id
  {
    var i :| 0 <= i < |t| && t[i].id == id;
  }

  /** Dropping the first row of a listing lists the store without that row. */
  lemma ListsTail(t: seq<Contact>, rows: map<Id, Contact>)
    requires Lists(t, rows) && t != []
    ensures t[0].id !in rows - {t[0].id} && rows == (rows - {t[0].id})[t[0].id := t[0]]
    ensures Lists(t[1..], rows - {t[0].id})
  {
    var rest := rows - {t[0].id};
    forall i | 0 <= i < |t[1..]| ensures t[1..][i].id in rest && rest[t[1..][i].id] == t[1..][i] {
      assert t[1..][i] == t[i + 1];
    }
    forall id | id in rest ensures exists i :: 0 <= i < |t[1..]| && t[1..][i].id == id {
      var i :| 0 <= i < |t| && t[i].id == id;
      assert t[1..][i - 1].id == id;
    }
  }

  /** Over any listing of the store, a count query counts the stored rows the filter accepts. */
  lemma {:induction false} ListingCount(t: seq<Contact>, rows: map<Id, Contact>, q: Repository.Query)
    requires Lists(t, rows)
    ensures Repository.CountWhere(t, q) == |MatchingKeys(rows, q)|
  {
    if t == [] {
      assert MatchingKeys(rows, q) == {};
    } else {
      var rest := rows - {t[0].id};
      ListsTail(t, rows);
      ListingCount(t[1..], rest, q);
      MatchingKeysInsert(rest, t[0], q);
    }
  }

  /** Counts do not depend on the order in which the store is scanned. */
  lemma CountIndependentOfOrder(t1: seq<Contact>, t2: seq<Contact>, rows: map<Id, Contact>, q: Repository.Query)
    requires Lists(t1, rows) && Lists(t2, rows)
    ensures Repository.CountWhere(t1, q) == Repository.CountWhere(t2, q)
  {
    ListingCount(t1, rows, q);
    ListingCount(t2, rows, q);
  }

  /** Inserting a row under a fresh key adds one to exactly the counts whose filter accepts it. */
  lemma InsertCount(t: seq<Contact>, rows: map<Id, Contact>, c: Contact, t': seq<Contact>, q: Repository.Query)
    requires Lists(t, rows) && c.id !in rows && Lists(t', rows[c.id := c])
    ensures Repository.CountWhere(t', q) == Repository.CountWhere(t, q) + (if Repository.Matches(q, c) then 1 else 0)
  {
    ListingCount(t, rows, q);
    ListingCount(t', rows[c.id := c], q);
    MatchingKeysInsert(rows, c, q);
  }

  /** A create inserted under a fresh key raises its category's count by one and leaves every other category's. */
  lemma CreateIncrementsCategoryCount(t: seq<Contact>, rows: map<Id, Contact>, c: Contact, t': seq<Contact>, category: string)
    requires Lists(t, rows) && c.id !in rows && Lists(t', rows[c.id := c])
    ensures Repository.CountByCategory(t', category)
         == Repository.CountByCategory(t, category) + (if c.category == category then 1 else 0)
  {
    InsertCount(t, rows, c, t', Repository.ByCategory(category));
  }

  /** Merging into a stored row moves it from the counts that accepted it to those that accept the result. */
  lemma MergeCount(t: seq<Contact>, rows: map<Id, Contact>, id: Id, m: Contact, t': seq<Contact>, q: Repository.Query)
    requires Lists(t, rows) && id in rows && m.id == id && Lists(t', rows[id := m])
    ensures Repository.CountWhere(t', q) + (if Repository.Matches(q, rows[id]) then 1 else 0)
         == Repository.CountWhere(t, q) + (if Repository.Matches(q, m) then 1 else 0)
  {
    var rest := rows - {id};
    ListingCount(t, rows, q);
    ListingCount(t', rows[id := m], q);
    ListedRowKey(t, rows, id);
    RestoreKey(rows, id);
    MatchingKeysInsert(rest, rows[id], q);
    assert rows[id := m] == rest[id := m];
    MatchingKeysInsert(rest, m, q);
  }

  /**
   * Creating with a stored id merges: the stored row's old category loses one, the
   * request's category gains one, and every other category's count stays.
   */
  lemma CreateMergeMovesCategoryCount(t: seq<Contact>, rows: map<Id, Contact>, id: Id, e: Entity, t': seq<Contact>, category: string)
    requires Lists(t, rows) && id in rows && e.isActive != None
    requires Lists(t', rows[id := Merged(rows[id], e)])
    ensures Repository.CountByCategory(t', category) + (if rows[id].category == category then 1 else 0)
         == Repository.CountByCategory(t, category) + (if e.category == category then 1 else 0)
  {
    ListedRowKey(t, rows, id);
    MergeCount(t, rows, id, Merged(rows[id], e), t', Repository.ByCategory(category));
  }

  /** Deleting a stored row removes one from exactly the counts whose filter accepted it. */
  lemma DeleteCount(t: seq<Contact>, rows: map<Id, Contact>, id: Id, t': seq<Contact>, q: Repository.Query)
    requires Lists(t, rows) && id in rows && Lists(t', rows - {id})
    ensures Repository.CountWhere(t', q) + (if Repository.Matches(q, rows[id]) then 1 else 0)
         == Repository.CountWhere(t, q)
  {
    ListingCount(t, rows, q);
    ListingCount(t', rows - {id}, q);
    ListedRowKey(t, rows, id);
    RestoreKey(rows, id);
    MatchingKeysInsert(rows - {id}, rows[id], q);
  }

  // ---------------------------------------------------------------------------
  // The store
  // ---------------------------------------------------------------------------

  datatype Error =
    | NotFound(id: Id)          // updateContact's "Contact not found with id"
    | ConstraintViolation       // a @NotBlank or NOT NULL column rejected at flush

  class ContactStore {
    var rows: map<Id, Contact>
    var nextId: Id

    /** Every row sits under its own key, the key was handed out already, and no required column is blank. */
    ghost predicate Valid()
      reads this
    {
      && 0 < nextId
      && forall id :: id in rows ==> 0 < id < nextId && rows[id].id == id && ContactIsComplete(rows[id])
    }

    constructor ()
      ensures Valid() && rows == map[] && nextId == 1
    {
      rows := map[];
      nextId := 1;
    }

    /**
     * JpaRepository.save: an entity without an id, or whose id is not stored, is
     * inserted under the next identity key; an entity whose id is stored is merged
     * into that row. A blank required column rejects the save and nothing changes.
     */
    method Save(e: Entity, now: Timestamp) returns (r: Result<Contact, Error>)
      requires Valid()
      modifies this
      ensures Valid()
      ensures !EntityIsComplete(e) ==>
        r == Failure(ConstraintViolation) && rows == old(rows) && nextId == old(nextId)
      ensures EntityIsComplete(e) && e.id != None && e.id.value in old(rows) && e.isActive == None ==>
        r == Failure(ConstraintViolation) && rows == old(rows) && nextId == old(nextId)
      ensures EntityIsComplete(e) && e.id != None && e.id.value in old(rows) && e.isActive != None ==>
        && r == Success(Merged(old(rows)[e.id.value], e))
        && rows == old(rows)[e.id.value := r.value]
        && nextId == old(nextId)
      ensures EntityIsComplete(e) && (e.id == None || e.id.value !in old(rows)) ==>
        && old(nextId) !in old(rows)
        && r == Success(Inserted(e, old(nextId), now))
        && rows == old(rows)[old(nextId) := r.value]
        && nextId == old(nextId) + 1
    {
      if !EntityIsComplete(e) {
        return Failure(ConstraintViolation);
      }
      if e.id != None && e.id.value in rows {
        if e.isActive == None {
          return Failure(ConstraintViolation);
        }
        var merged := Merged(rows[e.id.value], e);
        rows := rows[e.id.value := merged];
        return Success(merged);
      }
      var inserted := Inserted(e, nextId, now);
      rows := rows[nextId := inserted];
      nextId := nextId + 1;
      return Success(inserted);
    }

    /** createContact */
    method CreateContact(d: ContactDto, now: Timestamp) returns (r: Result<ContactDto, Error>)
      requires Valid()
      modifies this
      ensures Valid()
      ensures !DtoIsComplete(d) ==>
        r == Failure(ConstraintViolation) && rows == old(rows) && nextId == old(nextId)
      ensures DtoIsComplete(d) && (d.id == None || d.id.value !in old(rows)) ==>
        && old(nextId) !in old(rows)
        && rows == old(rows)[old(nextId) := Inserted(ConvertToEntity(d), old(nextId), now)]
        && nextId == old(nextId) + 1
        && r == Success(ConvertToDto(rows[old(nextId)]))
      ensures DtoIsComplete(d) && d.id != None && d.id.value in old(rows) ==>
        && rows == old(rows)[d.id.value := Merged(old(rows)[d.id.value], ConvertToEntity(d))]
        && nextId == old(nextId)
        && r == Success(ConvertToDto(rows[d.id.value]))
      ensures r.Success? ==> r.value.isActive == Some(d.isActive.GetOr(true))
    {
      var saved := Save(ConvertToEntity(d), now);
      match saved
      case Success(c) => r := Success(ConvertToDto(c));
      case Failure(err) => r := Failure(err);
    }

    /** updateContact */
    method UpdateContact(id: Id, d: ContactDto) returns (r: Result<ContactDto, Error>)
      requires Valid()
      modifies this
      ensures Valid() && nextId == old(nextId)
      ensures id !in old(rows) ==> r == Failure(NotFound(id)) && rows == old(rows)
      ensures id in old(rows) && !DtoIsComplete(d) ==> r == Failure(ConstraintViolation) && rows == old(rows)
      ensures id in old(rows) && DtoIsComplete(d) ==>
        && rows == old(rows)[id := ApplyUpdate(old(rows)[id], d)]
        && r == Success(ConvertToDto(rows[id]))
    {
      if id !in rows {
        return Failure(NotFound(id));
      }
      var updated := ApplyUpdate(rows[id], d);
      if !ContactIsComplete(updated) {
        return Failure(ConstraintViolation);
      }
      rows := rows[id := updated];
      r := Success(ConvertToDto(updated));
    }

    /** deleteContact: deleting a key that is not stored changes nothing. */
    method DeleteContact(id: Id)
      requires Valid()
      modifies this
      ensures Valid()
      ensures rows == old(rows) - {id} && nextId == old(nextId)
    {
      rows := rows - {id};
    }

    /** getContactById */
    function GetContactById(id: Id): (r: Option<ContactDto>)
      reads this
      requires Valid()
      ensures r != None <==> id in rows
      ensures r != None ==> r.value.id == Some(id) && r.value == ConvertToDto(rows[id])
    {
      if id in rows then Some(ConvertToDto(rows[id])) else None
    }
  }
}
