/** The ad handlers: a company's ad insert, the ads running at a given instant, and the
    full ad list. */
module Ads {
  import opened Collections
  import opened Schema

  /** The fields of an ad request body; an absent or null field is `None`, a date is an
      instant. */
  datatype AdBody = AdBody(content: Option<string>, targetCategory: Option<string>,
                           targetLocation: Option<string>, startDate: Option<int>,
                           endDate: Option<int>, cost: Option<int>)

  /** The required fields of `createAd` are all truthy: an empty content, a missing date or
      a cost of 0 fail. A date is `None` in every falsy form (absent, null, empty). */
  predicate AdFieldsPresent(b: AdBody) {
    Filled(b.content) && b.startDate.Some? && b.endDate.Some? && Truthy(b.cost)
  }

  /** `createAd`: 400 and nothing written when a required field is falsy; otherwise one Ads
      row for the calling company, with empty targets stored as NULL, and 201. */
  method CreateAd(db: Db, companyId: int, b: AdBody) returns (status: int)
    requires db.Valid()
    modifies db`ads, db`nextId
    ensures db.Valid()
    ensures !AdFieldsPresent(b) ==> status == 400 && db.ads == old(db.ads) && db.nextId == old(db.nextId)
    ensures AdFieldsPresent(b) ==>
      && status == 201
      && db.ads == old(db.ads) + [Ad(old(db.nextId), companyId, b.content.value, OrNull(b.targetCategory),
                                     OrNull(b.targetLocation), b.startDate.value, b.endDate.value, b.cost.value)]
      && db.nextId == old(db.nextId) + 1
  {
    if !AdFieldsPresent(b) {
      return 400;
    }
    var ad := Ad(db.nextId, companyId, b.content.value, OrNull(b.targetCategory),
                 OrNull(b.targetLocation), b.startDate.value, b.endDate.value, b.cost.value);
    db.ads := db.ads + [ad];
    db.nextId := db.nextId + 1;
    status := 201;
  }

  /** `@now BETWEEN StartDate AND EndDate`, both ends included. */
  function ActiveAt(now: int): Ad -> bool {
    (a: Ad) => a.startDate <= now <= a.endDate
  }

  function AdStart(a: Ad): int { a.startDate }

  /** `getActiveAds`: the ads running at `now`, latest start first. */
  function GetActiveAds(ads: seq<Ad>, now: int): (shown: seq<Ad>)
    ensures SortedDesc(shown, AdStart)
    ensures forall a :: a in shown <==> a in ads && a.startDate <= now <= a.endDate
    ensures forall a :: multiset(shown)[a] == if ActiveAt(now)(a) then multiset(ads)[a] else 0
  {
    SelectOrdered(ads, ActiveAt(now), AdStart)
  }

  /** `getAllAds`: every ad, whatever its window, latest start first. */
  function GetAllAds(ads: seq<Ad>): (shown: seq<Ad>)
    ensures SortedDesc(shown, AdStart)
    ensures multiset(shown) == multiset(ads)
  {
    SortDesc(ads, AdStart)
  }

  /** The active list is the full list cut down to the window at `now`: the same rows the
      same number of times, in an order both share. */
  lemma ActiveIsAllWithinWindow(ads: seq<Ad>, now: int)
    ensures multiset(GetActiveAds(ads, now)) == multiset(Filter(GetAllAds(ads), ActiveAt(now)))
    ensures SortedDesc(Filter(GetAllAds(ads), ActiveAt(now)), AdStart)
  {
    var all := GetAllAds(ads);
    FilterKeepsOrder(all, ActiveAt(now), AdStart);
    FilterCount(all, ActiveAt(now));
    FilterCount(ads, ActiveAt(now));
  }

  /** An ad just created whose window holds `now` is among the active ads at `now`. */
  lemma CreatedAdRunsInItsWindow(ads: seq<Ad>, ad: Ad, now: int)
    requires ad.startDate <= now <= ad.endDate
    ensures ad in GetActiveAds(ads + [ad], now)
  {
    assert ad in ads + [ad];
  }

  /** `BETWEEN` includes both ends: a new ad is shown on its first and on its last instant. */
  lemma WindowEndsIncluded(ads: seq<Ad>, ad: Ad)
    requires ad.startDate <= ad.endDate
    ensures ad in GetActiveAds(ads + [ad], ad.startDate) && ad in GetActiveAds(ads + [ad], ad.endDate)
  {
    CreatedAdRunsInItsWindow(ads, ad, ad.startDate);
    CreatedAdRunsInItsWindow(ads, ad, ad.endDate);
  }
}
