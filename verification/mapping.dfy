/**
  The persisted UrlMapping record and the repository the service talks to.

  The repository is a map from identity to record plus the next identity
  value. The database's identity column assigns ids, and its unique constraint
  on shortCode refuses a write that would give two records the same code.
*/
module Mapping {
  import opened Outcomes

  /**
    One row of the url_mapping table. Timestamps are whole hours; shortCode is
    None only between the two saves of the derived-code path.
  */
  datatype UrlMapping = UrlMapping(
    id: nat,
    originalUrl: string,
    shortCode: Option<string>,
    creationDate: int,
    clickCount: nat,
    expirationDate: Option<int>)

  datatype Store = Store(records: map<nat, UrlMapping>, nextId: nat)

  /** A fresh database: no rows, the identity column starts at 1. */
  const EmptyStore: Store := Store(map[], 1)

  /** Every row sits under its own id, and ids come from the identity counter. */
  predicate IdsAssigned(s: Store) {
    forall k :: k in s.records ==> s.records[k].id == k && 1 <= k < s.nextId
  }

  /** The unique constraint: no two rows carry the same non-null shortCode. */
  predicate UniqueCodes(records: map<nat, UrlMapping>) {
    forall a, b ::
      (a in records && b in records && records[a].shortCode.Some? &&
       records[a].shortCode == records[b].shortCode) ==> a == b
  }

  /** What the database guarantees of every state the service can observe. */
  predicate Valid(s: Store) {
    s.nextId >= 1 && IdsAssigned(s) && UniqueCodes(s.records)
  }

  predicate HasCode(s: Store, code: string) {
    exists k :: k in s.records && s.records[k].shortCode == Some(code)
  }

  /** True when a row other than `id` already holds `code`. */
  predicate CodeHeldByOther(s: Store, code: Option<string>, id: nat) {
    code.Some? && exists k :: k in s.records && k != id && s.records[k].shortCode == code
  }

  /** `isBefore(now)` on a set expiration date; a record without one never expires. */
  predicate Expired(m: UrlMapping, now: int) {
    m.expirationDate.Some? && m.expirationDate.value < now
  }

  /** Every row has a short code: true of every committed state of the service. */
  predicate AllCoded(s: Store) {
    forall k :: k in s.records ==> s.records[k].shortCode.Some?
  }

  /**
    How the service may change a store: the counter never goes back, existing
    rows keep id, URL, code and dates and only gain clicks, and rows it adds
    carry ids the counter had not yet handed out.
  */
  predicate Evolves(s: Store, s': Store) {
    && s.nextId <= s'.nextId
    && (forall k :: k in s.records ==>
          && k in s'.records
          && s'.records[k].id == s.records[k].id
          && s'.records[k].originalUrl == s.records[k].originalUrl
          && s'.records[k].shortCode == s.records[k].shortCode
          && s'.records[k].creationDate == s.records[k].creationDate
          && s'.records[k].expirationDate == s.records[k].expirationDate
          && s.records[k].clickCount <= s'.records[k].clickCount)
    && (forall k :: k in s'.records && k !in s.records ==> s.nextId <= k)
  }

  /** Adding a row under the next identity value only evolves a valid store. */
  lemma AddRowEvolves(s: Store, m: UrlMapping, next: nat)
    requires Valid(s) && s.nextId <= next
    ensures Evolves(s, Store(s.records[s.nextId := m], next))
  {
    assert s.nextId !in s.records;
  }

  /** findByShortCode: the one row holding `code`, if any. */
  function FindByShortCode(s: Store, code: string): (r: Option<UrlMapping>)
    requires Valid(s)
    ensures r.Some? <==> HasCode(s, code)
    ensures r.Some? ==> r.value.id in s.records && s.records[r.value.id] == r.value
    ensures r.Some? ==> r.value.shortCode == Some(code)
    ensures r.Some? ==> forall k :: k in s.records && s.records[k].shortCode == Some(code) ==> k == r.value.id
  {
    if HasCode(s, code) then
      var k: nat :| k in s.records && s.records[k].shortCode == Some(code);
      Some(s.records[k])
    else
      None
  }

  /**
    save of a new entity: the identity column assigns the next id; the unique
    constraint refuses a code another row already holds.
  */
  function Insert(s: Store, m: UrlMapping): (r: Result<Store>)
    requires Valid(s)
    ensures r.Success? <==> !(m.shortCode.Some? && HasCode(s, m.shortCode.value))
    ensures r.Success? ==> Valid(r.value)
    ensures r.Success? ==> r.value.nextId == s.nextId + 1
    ensures r.Success? ==> r.value.records == s.records[s.nextId := m.(id := s.nextId)]
    ensures r.Failure? ==> m.shortCode.Some? && r.error == DuplicateShortCode(m.shortCode.value)
  {
    if CodeHeldByOther(s, m.shortCode, s.nextId) then
      Failure(DuplicateShortCode(m.shortCode.value))
    else
      Success(Store(s.records[s.nextId := m.(id := s.nextId)], s.nextId + 1))
  }

  /**
    save of an entity that already has an id: the row is overwritten; the
    unique constraint refuses a code another row already holds.
  */
  function Update(s: Store, m: UrlMapping): (r: Result<Store>)
    requires Valid(s) && m.id in s.records
    ensures r.Success? <==> !CodeHeldByOther(s, m.shortCode, m.id)
    ensures r.Success? ==> Valid(r.value)
    ensures r.Success? ==> r.value == Store(s.records[m.id := m], s.nextId)
    ensures r.Failure? ==> m.shortCode.Some? && r.error == DuplicateShortCode(m.shortCode.value)
  {
    if CodeHeldByOther(s, m.shortCode, m.id) then
      Failure(DuplicateShortCode(m.shortCode.value))
    else
      Success(Store(s.records[m.id := m], s.nextId))
  }

  /**
    deleteByExpirationDateBefore(now), run by the scheduled cleanup job:
    removes exactly the expired rows and touches nothing else.
  */
  function DeleteExpired(s: Store, now: int): (r: Store)
    requires Valid(s)
    ensures Valid(r)
    ensures r.nextId == s.nextId
    ensures forall k :: k in r.records <==> k in s.records && !Expired(s.records[k], now)
    ensures forall k :: k in r.records ==> r.records[k] == s.records[k]
  {
    Store(map k | k in s.records && !Expired(s.records[k], now) :: s.records[k], s.nextId)
  }
}
