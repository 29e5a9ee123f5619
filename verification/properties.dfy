/**
  Properties that relate several service calls: what a client observes when
  it shortens and then follows or inspects a code, the invariants every
  sequence of calls keeps, the cleanup job's agreement with resolution, and
  the clash between a derived code and an existing alias.
*/
module Properties {
  import opened Outcomes
  import opened Mapping
  import opened Service
  import Base62

  /** One call into the service. */
  datatype Request =
    | Shorten(originalUrl: string, customAlias: Option<string>, hoursToExpire: Option<int>, now: int)
    | Redirect(code: string, now: int)
    | Stats(code: string)

  /** The store after one request, whatever it returned. */
  function Apply(s: Store, req: Request): (r: Store)
    requires Valid(s)
    ensures Valid(r) && Evolves(s, r)
    ensures AllCoded(s) ==> AllCoded(r)
  {
    match req
    case Shorten(url, alias, hours, now) => ShortenUrl(s, url, alias, hours, now).store
    case Redirect(code, now) => Resolve(s, code, now).store
    case Stats(_) => s
  }

  /** The store after a sequence of requests, served one after another. */
  function Run(s: Store, reqs: seq<Request>): (r: Store)
    requires Valid(s)
    ensures Valid(r)
    decreases |reqs|
  {
    if |reqs| == 0 then s else Run(Apply(s, reqs[0]), reqs[1..])
  }

  lemma EvolvesTransitive(s1: Store, s2: Store, s3: Store)
    requires Evolves(s1, s2) && Evolves(s2, s3)
    ensures Evolves(s1, s3)
  {
  }

  /**
    Over any sequence of requests: ids, URLs, codes and dates of existing rows
    never change, click counts never decrease, new rows take fresh ids, and
    if every row had a code before, every row has one after.
  */
  lemma {:induction false} RunEvolves(s: Store, reqs: seq<Request>)
    requires Valid(s)
    ensures Evolves(s, Run(s, reqs))
    ensures AllCoded(s) ==> AllCoded(Run(s, reqs))
    decreases |reqs|
  {
    if |reqs| > 0 {
      var s1 := Apply(s, reqs[0]);
      RunEvolves(s1, reqs[1..]);
      EvolvesTransitive(s, s1, Run(s1, reqs[1..]));
    }
  }

  /** Starting from an empty database, every row has a code and no code is held twice. */
  lemma ReachableStores(reqs: seq<Request>)
    ensures Valid(Run(EmptyStore, reqs)) && AllCoded(Run(EmptyStore, reqs))
  {
    RunEvolves(EmptyStore, reqs);
  }

  /** Resolving the code of a live row: that row gains a click and its URL comes back. */
  lemma ResolveRow(s: Store, k: nat, code: string, now: int)
    requires Valid(s) && k in s.records && s.records[k].shortCode == Some(code)
    requires !Expired(s.records[k], now)
    ensures Resolve(s, code, now) == Step(
      Store(s.records[k := s.records[k].(clickCount := s.records[k].clickCount + 1)], s.nextId),
      Success(s.records[k].originalUrl))
  {
    assert FindByShortCode(s, code) == Some(s.records[k]);
  }

  /** The stats of the code of a row are that row's. */
  lemma StatsRow(s: Store, k: nat, code: string)
    requires Valid(s) && k in s.records && s.records[k].shortCode == Some(code)
    ensures GetStats(s, code) == Success(UrlStats(
      s.records[k].originalUrl, BaseUrl + code, s.records[k].creationDate, s.records[k].clickCount))
  {
    assert FindByShortCode(s, code) == Some(s.records[k]);
  }

  /**
    A code just handed out resolves to the URL it was made for (at any later
    time for a derived code, up to and including the expiry for an alias),
    and the stats then show that single click.
  */
  lemma ShortenThenRedirect(s: Store, url: string, alias: Option<string>,
                            hours: Option<int>, now: int, later: int)
    requires Valid(s)
    requires ShortenUrl(s, url, alias, hours, now).result.Success?
    requires HasText(alias) && hours.Some? ==> later <= now + hours.value
    ensures
      var created := ShortenUrl(s, url, alias, hours, now);
      var code := created.result.value;
      var visit := Resolve(created.store, code, later);
      && visit.result == Success(url)
      && GetStats(visit.store, code) == Success(UrlStats(url, BaseUrl + code, now, 1))
  {
    var created := ShortenUrl(s, url, alias, hours, now);
    var code := created.result.value;
    var id := s.nextId;
    var row := created.store.records[id];
    assert row.shortCode == Some(code) && row.originalUrl == url && row.creationDate == now
        && row.clickCount == 0 && !Expired(row, later) by {
      if HasText(alias) {
        assert row == UrlMapping(id, url, Some(alias.value), now, 0, ExpiryFor(hours, now));
      } else {
        assert row == UrlMapping(id, url, Some(Base62.Encode(id)), now, 0, None);
      }
    }
    ResolveRow(created.store, id, code, later);
    var visit := Resolve(created.store, code, later);
    StatsRow(visit.store, id, code);
  }

  /** An alias with an expiry resolves exactly until its expiry hour, that hour included. */
  lemma AliasExpiryWindow(s: Store, url: string, alias: string, hours: int, now: int, later: int)
    requires Valid(s) && HasText(Some(alias)) && !HasCode(s, alias)
    ensures
      var created := ShortenUrl(s, url, Some(alias), Some(hours), now);
      Resolve(created.store, alias, later).result.Success? <==> later <= now + hours
  {
    var created := ShortenUrl(s, url, Some(alias), Some(hours), now);
    assert s.nextId in created.store.records && created.store.records[s.nextId].shortCode == Some(alias);
  }

  /** Asking twice for the same alias: the second request is refused and changes nothing. */
  lemma AliasTwice(s: Store, alias: string, url1: string, url2: string,
                   hours1: Option<int>, hours2: Option<int>, now1: int, now2: int)
    requires Valid(s) && HasText(Some(alias))
    ensures
      var first := ShortenUrl(s, url1, Some(alias), hours1, now1);
      ShortenUrl(first.store, url2, Some(alias), hours2, now2) ==
        Step(first.store, Failure(AliasAlreadyExists(alias)))
  {
    var first := ShortenUrl(s, url1, Some(alias), hours1, now1);
    if first.result.Success? {
      assert s.nextId in first.store.records && first.store.records[s.nextId].shortCode == Some(alias);
    }
  }

  /** A successful redirect shows up in the stats as exactly one more click and nothing else. */
  lemma RedirectThenStats(s: Store, code: string, now: int)
    requires Valid(s) && Resolve(s, code, now).result.Success?
    ensures GetStats(s, code).Success?
    ensures GetStats(Resolve(s, code, now).store, code) ==
      Success(GetStats(s, code).value.(clickCount := GetStats(s, code).value.clickCount + 1))
  {
    var k :| k in s.records && s.records[k].shortCode == Some(code) && !Expired(s.records[k], now);
    var after := Resolve(s, code, now).store;
    assert after.records[k].shortCode == Some(code);
  }

  /** An expired row is not found by a redirect, yet its stats are still reported. */
  lemma ExpiredStillHasStats(s: Store, code: string, now: int)
    requires Valid(s) && HasCode(s, code) && Expired(FindByShortCode(s, code).value, now)
    ensures Resolve(s, code, now) == Step(s, Failure(UrlNotFound(code)))
    ensures GetStats(s, code).Success?
  {
  }

  /**
    Resolution does not depend on when the cleanup job last ran: after
    deleting the rows expired at `now`, a redirect at `now` returns the same.
  */
  lemma CleanupAgreesWithResolve(s: Store, code: string, now: int)
    requires Valid(s)
    ensures Resolve(DeleteExpired(s, now), code, now).result == Resolve(s, code, now).result
  {
    var swept := DeleteExpired(s, now);
    var before := Resolve(s, code, now);
    var after := Resolve(swept, code, now);
    if before.result.Success? {
      var k :| k in s.records && s.records[k].shortCode == Some(code) && !Expired(s.records[k], now);
      assert k in swept.records;
      assert after.result.Success?;
    }
    if after.result.Success? {
      var k :| k in swept.records && swept.records[k].shortCode == Some(code) && !Expired(swept.records[k], now);
      assert k in s.records && s.records[k] == swept.records[k];
    }
  }

  /**
    The derived path does not look for aliases: after alias "2" takes id 1, the
    next derived request draws id 2, whose code is "2", and the unique
    constraint refuses it. The request after that draws id 3 and gets "3".
  */
  lemma DerivedCodeMeetsAlias()
    ensures
      var s1 := ShortenUrl(EmptyStore, "https://example.com/a", Some("2"), None, 0);
      var s2 := ShortenUrl(s1.store, "https://example.com/b", None, None, 0);
      var s3 := ShortenUrl(s2.store, "https://example.com/b", None, None, 0);
      && s1.result == Success("2")
      && s2.result == Failure(DuplicateShortCode("2"))
      && s2.store.records == s1.store.records
      && s3.result == Success("3")
  {
    Base62.AlphabetIsRanges(2);
    Base62.AlphabetIsRanges(3);
    assert Base62.Encode(2) == "2";
    assert Base62.Encode(3) == "3";
    var alias := Some("2");
    assert !IsWhitespace("2"[0]);
    assert HasText(alias);
    var s1 := ShortenUrl(EmptyStore, "https://example.com/a", alias, None, 0);
    assert s1.store.records[1].shortCode == Some("2");
    assert HasCode(s1.store, "2");
    var s2 := ShortenUrl(s1.store, "https://example.com/b", None, None, 0);
    assert s2.store.nextId == 3;
    assert !HasCode(s2.store, "3") by {
      assert s2.store.records.Keys == {1};
    }
  }
}
