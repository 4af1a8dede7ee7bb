/**
 * The contact record in its three shapes: the persisted row of the `contacts`
 * table, the transient entity object before it is saved, and the request/response
 * DTO. Also the lifecycle rules the entity class itself carries: the `@PrePersist`
 * hook and the non-updatable creation date.
 */
module Model {
  import opened Wrappers

  /** A `LocalDateTime`, as a count of seconds on one abstract, totally ordered clock. */
  type Timestamp = int

  /** Generated primary keys (`Long`, identity strategy); the model does not bound them. */
  type Id = nat

  /** A row of the `contacts` table: after persistence no column is null. */
  datatype Contact = Contact(
    id: Id,
    firstName: string,
    lastName: string,
    phoneNo: string,
    email: string,
    isActive: bool,
    category: string,
    creationDate: Timestamp)

  /** A `Contact` object that is not (yet) managed: Java's nullable fields are Options. */
  datatype Entity = Entity(
    id: Option<Id>,
    firstName: string,
    lastName: string,
    phoneNo: string,
    email: string,
    isActive: Option<bool>,
    category: string,
    creationDate: Option<Timestamp>)

  /** `ContactDTO`: the request and response body; `id`, `isActive` and `creationDate` may be null. */
  datatype ContactDto = ContactDto(
    id: Option<Id>,
    firstName: string,
    lastName: string,
    phoneNo: string,
    email: string,
    isActive: Option<bool>,
    category: string,
    creationDate: Option<Timestamp>)

  /** `CategoryCountDTO`: one row of the category statistics. */
  datatype CategoryCount = CategoryCount(category: string, count: nat)

  /** `@NotBlank`, as Hibernate Validator checks it: the value is non-empty once
    * `String.trim` has stripped every leading and trailing character up to U+0020. */
  predicate NotBlank(s: string) {
    exists i :: 0 <= i < |s| && s[i] > ' '
  }

  /** `String.trim`, leading half: drops the characters up to U+0020 at the front. */
  function TrimLeft(s: string): string {
    if s != [] && s[0] <= ' ' then TrimLeft(s[1..]) else s
  }

  /** `String.trim`, trailing half: drops the characters up to U+0020 at the back. */
  function TrimRight(s: string): string {
    if s != [] && s[|s| - 1] <= ' ' then TrimRight(s[..|s| - 1]) else s
  }

  /** `String.trim`. */
  function Trim(s: string): string {
    TrimRight(TrimLeft(s))
  }

  /** Stripping the front leaves nothing exactly when the value is blank. */
  lemma {:induction false} TrimLeftEmptyIffBlank(s: string)
    ensures TrimLeft(s) == [] <==> !NotBlank(s)
  {
    if s != [] && s[0] <= ' ' {
      TrimLeftEmptyIffBlank(s[1..]);
      if NotBlank(s) {
        var i :| 0 <= i < |s| && s[i] > ' ';
        assert s[1..][i - 1] > ' ';
      }
      if NotBlank(s[1..]) {
        var i :| 0 <= i < |s[1..]| && s[1..][i] > ' ';
        assert s[i + 1] > ' ';
      }
    } else if s != [] {
      assert s[0] > ' ';
    }
  }

  /** What is left after stripping the front starts with a character above U+0020. */
  lemma {:induction false} TrimLeftStartsVisible(s: string)
    ensures TrimLeft(s) == [] || TrimLeft(s)[0] > ' '
  {
    if s != [] && s[0] <= ' ' {
      TrimLeftStartsVisible(s[1..]);
    }
  }

  /** Stripping the back never empties a value that is not blank. */
  lemma {:induction false} TrimRightKeepsVisible(s: string)
    requires NotBlank(s)
    ensures TrimRight(s) != []
  {
    if s[|s| - 1] <= ' ' {
      var i :| 0 <= i < |s| && s[i] > ' ';
      assert s[..|s| - 1][i] > ' ';
      TrimRightKeepsVisible(s[..|s| - 1]);
    }
  }

  /** `@NotBlank` accepts a value exactly when `trim` leaves something of it. */
  lemma NotBlankIffTrimNonEmpty(s: string)
    ensures NotBlank(s) <==> Trim(s) != []
  {
    TrimLeftEmptyIffBlank(s);
    if TrimLeft(s) != [] {
      TrimLeftStartsVisible(s);
      assert TrimLeft(s)[0] > ' ';
      TrimRightKeepsVisible(TrimLeft(s));
    }
  }

  /** The five `@NotBlank` columns of the entity. */
  predicate RequiredFields(firstName: string, lastName: string, phoneNo: string, email: string, category: string) {
    NotBlank(firstName) && NotBlank(lastName) && NotBlank(phoneNo) && NotBlank(email) && NotBlank(category)
  }

  predicate ContactIsComplete(c: Contact) {
    RequiredFields(c.firstName, c.lastName, c.phoneNo, c.email, c.category)
  }

  predicate DtoIsComplete(d: ContactDto) {
    RequiredFields(d.firstName, d.lastName, d.phoneNo, d.email, d.category)
  }

  predicate EntityIsComplete(e: Entity) {
    RequiredFields(e.firstName, e.lastName, e.phoneNo, e.email, e.category)
  }

  /**
   * The row an insert of `e` produces: the store assigns the identity `id`, and the
   * `onCreate` hook stamps the creation date with the clock and fills a null `isActive`.
   */
  function Inserted(e: Entity, id: Id, now: Timestamp): (c: Contact)
    ensures c.id == id && c.creationDate == now
    ensures e.isActive == None ==> c.isActive
    ensures e.isActive != None ==> Some(c.isActive) == e.isActive
    ensures EntityIsComplete(e) ==> ContactIsComplete(c)
    ensures c.firstName == e.firstName && c.lastName == e.lastName && c.phoneNo == e.phoneNo
    ensures c.email == e.email && c.category == e.category
  {
    Contact(id, e.firstName, e.lastName, e.phoneNo, e.email, e.isActive.GetOr(true), e.category, now)
  }

  /**
   * The row after `e` is merged into the stored row: every updatable column takes the
   * entity's value, while the key and the non-updatable creation date keep the stored ones.
   */
  function Merged(stored: Contact, e: Entity): (c: Contact)
    requires e.isActive != None
    ensures c.id == stored.id && c.creationDate == stored.creationDate
    ensures Some(c.isActive) == e.isActive
    ensures EntityIsComplete(e) ==> ContactIsComplete(c)
    ensures c.firstName == e.firstName && c.lastName == e.lastName && c.phoneNo == e.phoneNo
    ensures c.email == e.email && c.category == e.category
  {
    stored.(firstName := e.firstName, lastName := e.lastName, phoneNo := e.phoneNo,
            email := e.email, isActive := e.isActive.value, category := e.category)
  }

  /** Merging the same entity twice leaves the row as merging it once did. */
  lemma MergeIdempotent(stored: Contact, e: Entity)
    requires e.isActive != None
    ensures Merged(Merged(stored, e), e) == Merged(stored, e)
  {
  }

  /** A row after a sequence of merges, one per later save. */
  function MergeAll(c: Contact, es: seq<Entity>): Contact
    requires forall i :: 0 <= i < |es| ==> es[i].isActive != None
    decreases es
  {
    if es == [] then c else MergeAll(Merged(c, es[0]), es[1..])
  }

  /** However many saves follow, the key and the creation date stay those the insert assigned. */
  lemma {:induction false} MergesKeepKeyAndCreationDate(c: Contact, es: seq<Entity>)
    requires forall i :: 0 <= i < |es| ==> es[i].isActive != None
    ensures MergeAll(c, es).id == c.id && MergeAll(c, es).creationDate == c.creationDate
    decreases es
  {
    if es != [] {
      MergesKeepKeyAndCreationDate(Merged(c, es[0]), es[1..]);
    }
  }
}
