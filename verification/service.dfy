/**
  UrlShortenerService: allocation of short codes (custom alias or derived
  from the record id), resolution with expiry and click counting, and the
  read-only statistics view.

  Each operation takes the repository state and the current time in hours,
  and returns the repository state after its transaction together with its
  return value or the exception it throws.
*/
module Service {
  import opened Outcomes
  import opened Mapping
  import Base62

  /** A store after one service call, and what the call returned or threw. */
  datatype Step<T> = Step(store: Store, result: Result<T>)

  /** The statistics view of one record (UrlStatsResponse). */
  datatype UrlStats = UrlStats(originalUrl: string, shortUrl: string, creationDate: int, clickCount: nat)

  /** The prefix getStats puts in front of a code. */
  const BaseUrl: string := "http://localhost:8080/"

  /**
    Java's Character.isWhitespace: the space, line and paragraph separators
    other than the non-breaking ones, plus tab, line feed, vertical tab, form
    feed, carriage return and the four information separators.
  */
  predicate IsWhitespace(c: char) {
    var u := c as int;
    || (0x09 <= u <= 0x0D) || (0x1C <= u <= 0x20)
    || u == 0x1680 || (0x2000 <= u <= 0x2006) || (0x2008 <= u <= 0x200A)
    || u == 0x2028 || u == 0x2029 || u == 0x205F || u == 0x3000
  }

  /** StringUtils.hasText: present, and holding at least one non-whitespace character. */
  predicate HasText(s: Option<string>) {
    s.Some? && exists i :: 0 <= i < |s.value| && !IsWhitespace(s.value[i])
  }

  /** The expiry the alias path stores: hoursToExpire hours after now, when given. */
  function ExpiryFor(hoursToExpire: Option<int>, now: int): Option<int> {
    if hoursToExpire.Some? then Some(now + hoursToExpire.value) else None
  }

  /** The custom-alias branch of shortenUrl. */
  function ShortenWithAlias(s: Store, originalUrl: string, alias: string,
                            hoursToExpire: Option<int>, now: int): (r: Step<string>)
    requires Valid(s)
    ensures Valid(r.store) && Evolves(s, r.store)
    ensures AllCoded(s) ==> AllCoded(r.store)
    ensures HasCode(s, alias) ==> r == Step(s, Failure(AliasAlreadyExists(alias)))
    ensures !HasCode(s, alias) ==>
      && r.result == Success(alias)
      && r.store.nextId == s.nextId + 1
      && r.store.records == s.records[s.nextId := UrlMapping(
           s.nextId, originalUrl, Some(alias), now, 0, ExpiryFor(hoursToExpire, now))]
  {
    if FindByShortCode(s, alias).Some? then
      Step(s, Failure(AliasAlreadyExists(alias)))
    else
      var created := UrlMapping(0, originalUrl, Some(alias), now, 0, ExpiryFor(hoursToExpire, now));
      var s' := Insert(s, created).value;
      assert s'.records[s.nextId] == created.(id := s.nextId);
      Step(s', Success(alias))
  }

  /**
    The derived-code branch of shortenUrl: save a record without code to
    obtain its id, then save the base-62 code of that id onto the same record.
    No expiry is set and no alias is checked, so only the unique constraint
    stands between the derived code and an alias that equals it. When that
    second save is refused the transaction rolls back, but the identity value
    it drew stays used.
  */
  function ShortenDerived(s: Store, originalUrl: string, now: int): (r: Step<string>)
    requires Valid(s)
    ensures Valid(r.store) && Evolves(s, r.store)
    ensures AllCoded(s) ==> AllCoded(r.store)
    ensures r.store.nextId == s.nextId + 1
    ensures r.result.Success? <==> !HasCode(s, Base62.Encode(s.nextId))
    ensures r.result.Success? ==>
      && r.result.value == Base62.Encode(s.nextId)
      && r.store.records == s.records[s.nextId := UrlMapping(
           s.nextId, originalUrl, Some(Base62.Encode(s.nextId)), now, 0, None)]
    ensures r.result.Failure? ==>
      r.result.error == DuplicateShortCode(Base62.Encode(s.nextId)) && r.store.records == s.records
  {
    var id := s.nextId;
    var draft := UrlMapping(0, originalUrl, None, now, 0, None);
    var s1 := Insert(s, draft).value;
    var code := Base62.Encode(id);
    var coded := UrlMapping(id, originalUrl, Some(code), now, 0, None);
    assert s1.records[id] == draft.(id := id) && id !in s.records;
    assert CodeHeldByOther(s1, Some(code), id) <==> HasCode(s, code) by {
      if HasCode(s, code) {
        var k :| k in s.records && s.records[k].shortCode == Some(code);
        assert k in s1.records && k != id && s1.records[k].shortCode == Some(code);
      }
    }
    match Update(s1, coded)
    case Success(s2) =>
      assert s2.records == s.records[id := coded];
      AddRowEvolves(s, coded, id + 1);
      Step(s2, Success(code))
    case Failure(e) =>
      Step(Store(s.records, id + 1), Failure(e))
  }

  /**
    shortenUrl: a usable alias (StringUtils.hasText) takes the alias branch,
    anything else (absent, empty or all whitespace) the derived-code branch.
  */
  function ShortenUrl(s: Store, originalUrl: string, customAlias: Option<string>,
                      hoursToExpire: Option<int>, now: int): (r: Step<string>)
    requires Valid(s)
    ensures Valid(r.store) && Evolves(s, r.store)
    ensures AllCoded(s) ==> AllCoded(r.store)
    ensures r.result.Failure? ==> r.store.records == s.records
    ensures forall k :: k in r.store.records && k !in s.records ==> r.store.records[k].clickCount == 0
    ensures r.result.Success? ==>
      && HasCode(r.store, r.result.value)
      && FindByShortCode(r.store, r.result.value).value.originalUrl == originalUrl
    ensures HasText(customAlias) ==>
      r == ShortenWithAlias(s, originalUrl, customAlias.value, hoursToExpire, now)
    ensures !HasText(customAlias) ==> r == ShortenDerived(s, originalUrl, now)
  {
    var r := if HasText(customAlias)
             then ShortenWithAlias(s, originalUrl, customAlias.value, hoursToExpire, now)
             else ShortenDerived(s, originalUrl, now);
    assert r.result.Success? ==> r.store.records[s.nextId].shortCode == Some(r.result.value);
    r
  }

  /**
    getOriginalUrlAndIncrementClicks. A code that no record holds, or whose
    record's expiry lies strictly before now, is not found and nothing
    changes; otherwise that one record gains a click and its URL is returned.
  */
  function Resolve(s: Store, code: string, now: int): (r: Step<string>)
    requires Valid(s)
    ensures Valid(r.store) && Evolves(s, r.store)
    ensures r.result.Success? <==>
      exists k :: k in s.records && s.records[k].shortCode == Some(code) && !Expired(s.records[k], now)
    ensures r.result.Failure? ==> r.store == s && r.result.error == UrlNotFound(code)
    ensures r.result.Success? ==>
      exists k :: k in s.records && s.records[k].shortCode == Some(code) && r.result.value == s.records[k].originalUrl
    ensures r.result.Success? ==> r.store.nextId == s.nextId && r.store.records.Keys == s.records.Keys
    ensures r.result.Success? ==> forall k :: k in s.records ==>
      r.store.records[k] ==
        if s.records[k].shortCode == Some(code)
        then s.records[k].(clickCount := s.records[k].clickCount + 1)
        else s.records[k]
  {
    match FindByShortCode(s, code)
    case None => Step(s, Failure(UrlNotFound(code)))
    case Some(m) =>
      if Expired(m, now) then
        Step(s, Failure(UrlNotFound(code)))
      else
        Step(Update(s, m.(clickCount := m.clickCount + 1)).value, Success(m.originalUrl))
  }

  /**
    getStats: the statistics of the record holding `code`. It reads the store
    only, and it reports expired records like live ones.
  */
  function GetStats(s: Store, code: string): (r: Result<UrlStats>)
    requires Valid(s)
    ensures r.Success? <==> HasCode(s, code)
    ensures r.Failure? ==> r.error == UrlNotFound(code)
    ensures r.Success? ==>
      exists k :: k in s.records && s.records[k].shortCode == Some(code) &&
        r.value == UrlStats(s.records[k].originalUrl, BaseUrl + code, s.records[k].creationDate, s.records[k].clickCount)
  {
    match FindByShortCode(s, code)
    case None => Failure(UrlNotFound(code))
    case Some(m) =>
      Success(UrlStats(m.originalUrl, BaseUrl + m.shortCode.value, m.creationDate, m.clickCount))
  }
}
