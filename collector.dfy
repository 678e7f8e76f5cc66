/**
 * Refreshing the cached topics of one category (collector.go).
 *
 * The category listing and each per-topic fetch are supplied as oracle
 * results: `listing` is None when the listing call fails, and
 * `fetch(id)` is what fetching topic `id` returns (None on failure).
 */
module Collector {
  import opened Wrappers
  import opened Forum

  /** The cached bucket of `slug`, or the empty bucket when the slug is absent. */
  function BucketOf(cache: TopicTree, slug: string): map<int, Topic>
  {
    if slug in cache then cache[slug] else map[]
  }

  /** The cached copy of the overview's topic is at least as recent as the overview: no fetch. */
  predicate IsCurrent(bucket: map<int, Topic>, ov: TopicOverview)
  {
    ov.id in bucket && bucket[ov.id].lastPostedAt >= ov.lastPostedAt
  }

  /**
   * The bucket after handling one overview of the listing: only that
   * topic's entry may change; a current entry is kept, a stale or missing
   * one is replaced by a successful fetch, and a failed fetch changes
   * nothing. A fetch at least as recent as the overview leaves it current.
   */
  function Visit(bucket: map<int, Topic>, ov: TopicOverview, fetch: int -> Option<Topic>): (r: map<int, Topic>)
    ensures forall k :: k != ov.id ==> (k in r <==> k in bucket) && (k in r ==> r[k] == bucket[k])
    ensures IsCurrent(bucket, ov) || fetch(ov.id).None? ==> r == bucket
    ensures !IsCurrent(bucket, ov) && fetch(ov.id).Some? ==> ov.id in r && r[ov.id] == fetch(ov.id).value
    ensures fetch(ov.id).Some? && fetch(ov.id).value.lastPostedAt >= ov.lastPostedAt ==> IsCurrent(r, ov)
  {
    if IsCurrent(bucket, ov) then bucket
    else match fetch(ov.id)
      case Some(t) => bucket[ov.id := t]
      case None => bucket
  }

  /** The ids of a listing. */
  function ListedIds(ovs: seq<TopicOverview>): set<int>
    decreases |ovs|
  {
    if ovs == [] then {} else ListedIds(ovs[..|ovs| - 1]) + {ovs[|ovs| - 1].id}
  }

  /** The bucket after handling every overview of the listing in order. */
  function RefreshBucket(bucket: map<int, Topic>, ovs: seq<TopicOverview>, fetch: int -> Option<Topic>): map<int, Topic>
    decreases |ovs|
  {
    if ovs == [] then bucket
    else Visit(RefreshBucket(bucket, ovs[..|ovs| - 1], fetch), ovs[|ovs| - 1], fetch)
  }

  /** The ids fetched while handling the listing, in call order. */
  function FetchedIds(bucket: map<int, Topic>, ovs: seq<TopicOverview>, fetch: int -> Option<Topic>): seq<int>
    decreases |ovs|
  {
    if ovs == [] then []
    else
      var init := ovs[..|ovs| - 1];
      var last := ovs[|ovs| - 1];
      FetchedIds(bucket, init, fetch) + (if IsCurrent(RefreshBucket(bucket, init, fetch), last) then [] else [last.id])
  }

  /** An id is listed exactly when some overview carries it. */
  lemma {:induction false} ListedIdsAt(ovs: seq<TopicOverview>, k: int)
    ensures k in ListedIds(ovs) <==> exists i :: 0 <= i < |ovs| && ovs[i].id == k
    decreases |ovs|
  {
    if ovs != [] {
      var init := ovs[..|ovs| - 1];
      ListedIdsAt(init, k);
      if exists i :: 0 <= i < |ovs| && ovs[i].id == k {
        var i :| 0 <= i < |ovs| && ovs[i].id == k;
        if i < |ovs| - 1 {
          assert init[i].id == k;
        }
      }
    }
  }

  /**
   * What a refresh may do to a bucket: entries are never removed, new keys
   * are listed ids, ids the listing does not mention keep their entries,
   * and every entry is either the prior one or a successfully fetched topic.
   */
  lemma {:induction false} RefreshBucketFrame(bucket: map<int, Topic>, ovs: seq<TopicOverview>, fetch: int -> Option<Topic>)
    ensures var r := RefreshBucket(bucket, ovs, fetch);
            && bucket.Keys <= r.Keys
            && r.Keys <= bucket.Keys + ListedIds(ovs)
            && (forall k :: k in bucket && k !in ListedIds(ovs) ==> r[k] == bucket[k])
            && (forall k :: k in r ==> (k in bucket && r[k] == bucket[k]) || fetch(k) == Some(r[k]))
    decreases |ovs|
  {
    if ovs != [] {
      RefreshBucketFrame(bucket, ovs[..|ovs| - 1], fetch);
    }
  }

  /** Every fetched id is listed, and there is at most one fetch per overview. */
  lemma {:induction false} FetchedIdsListed(bucket: map<int, Topic>, ovs: seq<TopicOverview>, fetch: int -> Option<Topic>)
    ensures var r := FetchedIds(bucket, ovs, fetch);
            |r| <= |ovs| && forall k :: k in r ==> k in ListedIds(ovs)
    decreases |ovs|
  {
    if ovs != [] {
      FetchedIdsListed(bucket, ovs[..|ovs| - 1], fetch);
    }
  }

  /** The whole cache after refreshing `slug` (collector.go, collectTopicsFromCategory). */
  function CollectCategory(cache: TopicTree, slug: string, listing: Option<seq<TopicOverview>>,
                           fetch: int -> Option<Topic>): (r: TopicTree)
    // a failed listing leaves the cache alone
    ensures listing.None? ==> r == cache
    // every other slug's bucket is untouched
    ensures forall s :: s != slug ==> (s in r <==> s in cache) && (s in cache ==> r[s] == cache[s])
    // entries of the refreshed slug are never removed
    ensures slug in cache ==> slug in r && cache[slug].Keys <= r[slug].Keys
    // a slug that was absent appears only with a non-empty bucket
    ensures slug in r && slug !in cache ==> |r[slug]| > 0
    // after a listing, the slug holds its refreshed bucket, stored unless it is a new, empty one
    ensures listing.Some? ==> BucketOf(r, slug) == RefreshBucket(BucketOf(cache, slug), listing.value, fetch)
    ensures listing.Some? ==> (slug in r <==> slug in cache || |RefreshBucket(BucketOf(cache, slug), listing.value, fetch)| > 0)
  {
    match listing
    case None => cache
    case Some(ovs) =>
      var bucket := RefreshBucket(BucketOf(cache, slug), ovs, fetch);
      RefreshBucketFrame(BucketOf(cache, slug), ovs, fetch);
      if |bucket| > 0 then cache[slug := bucket]
      else
        assert bucket == map[];
        cache
  }

  /** No id is listed twice. */
  predicate DistinctIds(ovs: seq<TopicOverview>)
  {
    forall i, j :: 0 <= i < j < |ovs| ==> ovs[i].id != ovs[j].id
  }

  /**
   * With distinct ids each listed id ends up exactly as handling its own
   * overview alone would leave it: kept when current, replaced by a
   * successful fetch, unchanged (present or absent) after a failed one.
   */
  lemma {:induction false} RefreshBucketAt(bucket: map<int, Topic>, ovs: seq<TopicOverview>,
                                            fetch: int -> Option<Topic>, i: int)
    requires DistinctIds(ovs) && 0 <= i < |ovs|
    ensures var r := RefreshBucket(bucket, ovs, fetch);
            var v := Visit(bucket, ovs[i], fetch);
            (ovs[i].id in r <==> ovs[i].id in v) && (ovs[i].id in r ==> r[ovs[i].id] == v[ovs[i].id])
    decreases |ovs|
  {
    var init := ovs[..|ovs| - 1];
    var last := ovs[|ovs| - 1];
    var mid := RefreshBucket(bucket, init, fetch);
    if i == |ovs| - 1 {
      ListedIdsAt(init, last.id);
      RefreshBucketFrame(bucket, init, fetch);
      assert (last.id in mid <==> last.id in bucket) && (last.id in mid ==> mid[last.id] == bucket[last.id]);
    } else {
      RefreshBucketAt(bucket, init, fetch, i);
      assert ovs[i].id != last.id;
    }
  }

  /** Staleness: a listed topic whose cached copy is current is never fetched. */
  lemma {:induction false} CurrentNotFetched(bucket: map<int, Topic>, ovs: seq<TopicOverview>,
                                             fetch: int -> Option<Topic>, i: int)
    requires DistinctIds(ovs) && 0 <= i < |ovs|
    ensures ovs[i].id in FetchedIds(bucket, ovs, fetch) <==> !IsCurrent(bucket, ovs[i])
    decreases |ovs|
  {
    var init := ovs[..|ovs| - 1];
    var last := ovs[|ovs| - 1];
    var mid := RefreshBucket(bucket, init, fetch);
    if i == |ovs| - 1 {
      ListedIdsAt(init, last.id);
      RefreshBucketFrame(bucket, init, fetch);
      FetchedIdsListed(bucket, init, fetch);
      assert IsCurrent(mid, last) == IsCurrent(bucket, last);
    } else {
      CurrentNotFetched(bucket, init, fetch, i);
      assert ovs[i].id != last.id;
    }
  }

  /** Rerunning against a bucket that is current for every overview fetches nothing and changes nothing. */
  lemma {:induction false} RerunIsQuiet(bucket: map<int, Topic>, ovs: seq<TopicOverview>, fetch: int -> Option<Topic>)
    requires forall i :: 0 <= i < |ovs| ==> IsCurrent(bucket, ovs[i])
    ensures FetchedIds(bucket, ovs, fetch) == []
    ensures RefreshBucket(bucket, ovs, fetch) == bucket
    decreases |ovs|
  {
    if ovs != [] {
      RerunIsQuiet(bucket, ovs[..|ovs| - 1], fetch);
      assert IsCurrent(bucket, ovs[|ovs| - 1]);
    }
  }

  /** The upstream agrees with its own listing: a fetched topic is at least as recent as its overview. */
  predicate Consistent(ovs: seq<TopicOverview>, fetch: int -> Option<Topic>)
  {
    forall i :: 0 <= i < |ovs| && fetch(ovs[i].id).Some? ==> fetch(ovs[i].id).value.lastPostedAt >= ovs[i].lastPostedAt
  }

  /**
   * After one refresh against a consistent upstream, every listed topic is
   * current unless its fetch failed. A topic listed twice stays current:
   * a later visit either keeps its entry or stores the same fetched topic.
   */
  lemma {:induction false} RefreshMakesCurrent(bucket: map<int, Topic>, ovs: seq<TopicOverview>,
                                               fetch: int -> Option<Topic>, i: int)
    requires Consistent(ovs, fetch) && 0 <= i < |ovs|
    ensures IsCurrent(RefreshBucket(bucket, ovs, fetch), ovs[i]) || fetch(ovs[i].id).None?
    decreases |ovs|
  {
    var init := ovs[..|ovs| - 1];
    if i < |ovs| - 1 {
      assert init[i] == ovs[i];
      assert Consistent(init, fetch) by {
        forall k | 0 <= k < |init| ensures init[k] == ovs[k] {}
      }
      RefreshMakesCurrent(bucket, init, fetch, i);
    }
  }

  /**
   * The bucket already holds what a refresh would leave for each overview:
   * it is current, or its fetch fails, or it holds the fetched topic.
   */
  ghost predicate Settled(bucket: map<int, Topic>, ovs: seq<TopicOverview>, fetch: int -> Option<Topic>)
  {
    forall i :: 0 <= i < |ovs| ==>
      IsCurrent(bucket, ovs[i]) || fetch(ovs[i].id).None? || (ovs[i].id in bucket && bucket[ovs[i].id] == fetch(ovs[i].id).value)
  }

  /** A refresh leaves the bucket settled for its listing. */
  lemma {:induction false} RefreshSettles(bucket: map<int, Topic>, ovs: seq<TopicOverview>, fetch: int -> Option<Topic>)
    ensures Settled(RefreshBucket(bucket, ovs, fetch), ovs, fetch)
    decreases |ovs|
  {
    if ovs != [] {
      var init := ovs[..|ovs| - 1];
      var last := ovs[|ovs| - 1];
      RefreshSettles(bucket, init, fetch);
      var mid := RefreshBucket(bucket, init, fetch);
      var r := Visit(mid, last, fetch);
      forall i | 0 <= i < |ovs|
        ensures IsCurrent(r, ovs[i]) || fetch(ovs[i].id).None? || (ovs[i].id in r && r[ovs[i].id] == fetch(ovs[i].id).value)
      {
        if i < |ovs| - 1 {
          assert init[i] == ovs[i];
        }
      }
    }
  }

  /** A refresh of a settled bucket changes nothing. */
  lemma {:induction false} SettledIsFixed(bucket: map<int, Topic>, ovs: seq<TopicOverview>, fetch: int -> Option<Topic>)
    requires Settled(bucket, ovs, fetch)
    ensures RefreshBucket(bucket, ovs, fetch) == bucket
    decreases |ovs|
  {
    if ovs != [] {
      var init := ovs[..|ovs| - 1];
      var last := ovs[|ovs| - 1];
      assert Settled(bucket, init, fetch) by {
        forall k | 0 <= k < |init| ensures init[k] == ovs[k] {}
      }
      SettledIsFixed(bucket, init, fetch);
      assert IsCurrent(bucket, last) || fetch(last.id).None? || (last.id in bucket && bucket[last.id] == fetch(last.id).value);
      if !IsCurrent(bucket, last) && fetch(last.id).Some? {
        assert bucket[last.id := fetch(last.id).value] == bucket;
      }
    }
  }

  /**
   * Idempotence: against an unchanged upstream, a second refresh leaves the
   * bucket exactly as the first left it, whatever the fetches return.
   */
  lemma RefreshIdempotent(bucket: map<int, Topic>, ovs: seq<TopicOverview>, fetch: int -> Option<Topic>)
    ensures var once := RefreshBucket(bucket, ovs, fetch);
            RefreshBucket(once, ovs, fetch) == once
  {
    RefreshSettles(bucket, ovs, fetch);
    SettledIsFixed(RefreshBucket(bucket, ovs, fetch), ovs, fetch);
  }

  /** Idempotence of the whole cache: collecting a category twice against an unchanged upstream equals collecting it once. */
  lemma CollectIdempotent(cache: TopicTree, slug: string, listing: Option<seq<TopicOverview>>, fetch: int -> Option<Topic>)
    ensures var once := CollectCategory(cache, slug, listing, fetch);
            CollectCategory(once, slug, listing, fetch) == once
  {
    if listing.Some? {
      var once := CollectCategory(cache, slug, listing, fetch);
      RefreshIdempotent(BucketOf(cache, slug), listing.value, fetch);
      var twice := CollectCategory(once, slug, listing, fetch);
      assert BucketOf(twice, slug) == BucketOf(once, slug);
      assert slug in twice <==> slug in once;
      assert forall s :: s in twice ==> twice[s] == once[s];
    }
  }

  /**
   * Against a consistent upstream whose fetches all succeed, a second
   * refresh also fetches nothing.
   */
  lemma SecondRefreshIsQuiet(bucket: map<int, Topic>, ovs: seq<TopicOverview>, fetch: int -> Option<Topic>)
    requires Consistent(ovs, fetch)
    requires forall i :: 0 <= i < |ovs| ==> fetch(ovs[i].id).Some?
    ensures var once := RefreshBucket(bucket, ovs, fetch);
            FetchedIds(once, ovs, fetch) == [] && RefreshBucket(once, ovs, fetch) == once
  {
    var once := RefreshBucket(bucket, ovs, fetch);
    forall i | 0 <= i < |ovs|
      ensures IsCurrent(once, ovs[i])
    {
      RefreshMakesCurrent(bucket, ovs, fetch, i);
    }
    RerunIsQuiet(once, ovs, fetch);
  }

  /**
   * At the cache level: a refresh whose every overview is current against
   * the cached bucket performs no fetch and leaves the whole cache as it was.
   */
  lemma RerunLeavesCacheUnchanged(cache: TopicTree, slug: string, ovs: seq<TopicOverview>, fetch: int -> Option<Topic>)
    requires forall i :: 0 <= i < |ovs| ==> IsCurrent(BucketOf(cache, slug), ovs[i])
    ensures FetchedIds(BucketOf(cache, slug), ovs, fetch) == []
    ensures CollectCategory(cache, slug, Some(ovs), fetch) == cache
  {
    RerunIsQuiet(BucketOf(cache, slug), ovs, fetch);
  }

  /** Handling one more overview extends both the bucket and the fetched ids by one step. */
  lemma RefreshStep(bucket: map<int, Topic>, ovs: seq<TopicOverview>, i: int, fetch: int -> Option<Topic>)
    requires 0 <= i < |ovs|
    ensures var mid := RefreshBucket(bucket, ovs[..i], fetch);
            && RefreshBucket(bucket, ovs[..i + 1], fetch) == Visit(mid, ovs[i], fetch)
            && FetchedIds(bucket, ovs[..i + 1], fetch)
               == FetchedIds(bucket, ovs[..i], fetch) + (if IsCurrent(mid, ovs[i]) then [] else [ovs[i].id])
  {
    var prefix := ovs[..i + 1];
    assert prefix[..|prefix| - 1] == ovs[..i] && prefix[|prefix| - 1] == ovs[i];
  }

  /** The process-wide topic cache, refreshed one category at a time. */
  class TopicsCache {
    var topics: TopicTree

    constructor ()
      ensures topics == map[]
    {
      topics := map[];
    }

    /**
     * Refreshes the bucket of `slug` from one listing. The ghost result
     * records the ids it fetched, in call order.
     */
    method CollectTopicsFromCategory(slug: string, listing: Option<seq<TopicOverview>>,
                                     fetch: int -> Option<Topic>) returns (ghost fetched: seq<int>)
      modifies this
      ensures topics == CollectCategory(old(topics), slug, listing, fetch)
      ensures fetched == if listing.None? then [] else FetchedIds(BucketOf(old(topics), slug), listing.value, fetch)
    {
      var bucket: map<int, Topic>;
      if slug in topics {
        bucket := topics[slug];
      } else {
        bucket := map[];
      }
      ghost var start := bucket;
      assert start == BucketOf(topics, slug);
      fetched := [];
      if listing.None? {
        return;
      }
      var ovs := listing.value;
      var i := 0;
      while i < |ovs|
        invariant 0 <= i <= |ovs|
        invariant topics == old(topics)
        invariant bucket == RefreshBucket(start, ovs[..i], fetch)
        invariant fetched == FetchedIds(start, ovs[..i], fetch)
      {
        var ov := ovs[i];
        RefreshStep(start, ovs, i, fetch);
        if !(ov.id in bucket && bucket[ov.id].lastPostedAt >= ov.lastPostedAt) {
          fetched := fetched + [ov.id];
          var result := fetch(ov.id);
          if result.Some? {
            bucket := bucket[ov.id := result.value];
          }
        }
        i := i + 1;
      }
      assert ovs[..i] == ovs;
      if |bucket| > 0 {
        topics := topics[slug := bucket];
      }
    }
  }
}
