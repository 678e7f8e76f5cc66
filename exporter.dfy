/**
 * Flattening the topic cache into export rows, and the exporter-type
 * check (exporter.go). Go visits maps in an unspecified order; the
 * methods below pick each next key arbitrarily, and their results are
 * stated as multisets plus, for comments, the per-topic block structure.
 */
module Exporter {
  import opened Wrappers
  import opened Forum
  import opened Metrics
  import opened MapSums

  /** The participant a user row describes: the row keeps every field of it. */
  function ParticipantOf(e: UserEntry): Participant
  {
    Participant(e.userId, e.username, e.name, e.primaryGroupName)
  }

  /** The user row for one participant; nothing of the participant is lost. */
  function ToUserEntry(p: Participant): (e: UserEntry)
    ensures ParticipantOf(e) == p
  {
    UserEntry(p.id, p.username, p.name, p.primaryGroupName)
  }

  /** The user rows of one topic, in participant order. */
  function TopicUsers(t: Topic): seq<UserEntry>
  {
    seq(|t.participants|, k requires 0 <= k < |t.participants| => ToUserEntry(t.participants[k]))
  }

  ghost function TopicUsersBag(id: int, t: Topic): multiset<UserEntry>
  {
    multiset(TopicUsers(t))
  }

  /** Every user row one category's bucket yields. */
  ghost function BucketUsers(slug: string, bucket: map<int, Topic>): multiset<UserEntry>
  {
    SumMap(bucket, TopicUsersBag)
  }

  /** Every user row the whole cache yields: one per participant of every cached topic. */
  ghost function CacheUsers(topics: TopicTree): multiset<UserEntry>
  {
    SumMap(topics, BucketUsers)
  }

  /** The post a comment row describes. */
  function PostOf(e: TopicCommentsEntry): Post
  {
    Post(e.postId, e.username, e.creationTime, e.updateTime)
  }

  /**
   * The comment row for one post of topic `id` in category `slug`: the
   * post, the slug and the topic id can all be read back from it, and it
   * never claims to be the topic's main post.
   */
  function CommentOf(slug: string, id: int, p: Post): (e: TopicCommentsEntry)
    ensures PostOf(e) == p && e.categorySlug == slug && e.topicId == id
    ensures !e.isInitialPost
  {
    TopicCommentsEntry(slug, id, p.id, p.createdAt, p.updatedAt, p.username, false)
  }

  /** The comment rows of one topic, in post-stream order. */
  function TopicComments(slug: string, id: int, t: Topic): seq<TopicCommentsEntry>
  {
    seq(|t.posts|, k requires 0 <= k < |t.posts| => CommentOf(slug, id, t.posts[k]))
  }

  ghost function TopicCommentsBag(slug: string): (int, Topic) -> multiset<TopicCommentsEntry>
  {
    (id: int, t: Topic) => multiset(TopicComments(slug, id, t))
  }

  /** Every comment row one category's bucket yields. */
  ghost function BucketComments(slug: string, bucket: map<int, Topic>): multiset<TopicCommentsEntry>
  {
    SumMap(bucket, TopicCommentsBag(slug))
  }

  /** Every comment row the whole cache yields: one per post of every cached topic. */
  ghost function CacheComments(topics: TopicTree): multiset<TopicCommentsEntry>
  {
    SumMap(topics, BucketComments)
  }

  /** A (slug, topic id) pair names a cached topic. */
  ghost predicate Cached(topics: TopicTree, key: (string, int))
  {
    key.0 in topics && key.1 in topics[key.0]
  }

  /** The comment rows of the topics named by `order`, topic after topic. */
  ghost function Blocks(topics: TopicTree, order: seq<(string, int)>): seq<TopicCommentsEntry>
    requires forall key :: key in order ==> Cached(topics, key)
    decreases |order|
  {
    if order == [] then []
    else
      var key := order[|order| - 1];
      assert key in order && Cached(topics, key);
      Blocks(topics, order[..|order| - 1]) + TopicComments(key.0, key.1, topics[key.0][key.1])
  }

  /** Appends the user rows of one topic (the innermost loop of userMapToUserEntry). */
  method AppendTopicUsers(acc: seq<UserEntry>, topic: Topic) returns (userEntries: seq<UserEntry>)
    ensures userEntries == acc + TopicUsers(topic)
  {
    userEntries := acc;
    var k := 0;
    while k < |topic.participants|
      invariant 0 <= k <= |topic.participants|
      invariant userEntries == acc + TopicUsers(topic)[..k]
    {
      var participant := topic.participants[k];
      userEntries := userEntries + [UserEntry(participant.id, participant.username, participant.name, participant.primaryGroupName)];
      assert TopicUsers(topic)[..k + 1] == TopicUsers(topic)[..k] + [TopicUsers(topic)[k]];
      k := k + 1;
    }
    assert TopicUsers(topic)[..k] == TopicUsers(topic);
  }

  /** Appends the user rows of one category's bucket (the middle loop of userMapToUserEntry). */
  method AppendBucketUsers(acc: seq<UserEntry>, slug: string, topicList: map<int, Topic>) returns (userEntries: seq<UserEntry>)
    ensures multiset(userEntries) == multiset(acc) + BucketUsers(slug, topicList)
  {
    userEntries := acc;
    var inner := topicList;
    while inner != map[]
      invariant multiset(userEntries) + BucketUsers(slug, inner) == multiset(acc) + BucketUsers(slug, topicList)
      decreases |inner|
    {
      var id :| id in inner;
      SumMapRemove(inner, TopicUsersBag, id);
      RemoveShrinks(inner, id);
      userEntries := AppendTopicUsers(userEntries, inner[id]);
      inner := inner - {id};
    }
  }

  /**
   * exporter.go, userMapToUserEntry: one user row per participant of every
   * cached topic, with no de-duplication across topics.
   */
  method UserMapToUserEntry(topics: TopicTree) returns (userEntries: seq<UserEntry>)
    ensures multiset(userEntries) == CacheUsers(topics)
  {
    userEntries := [];
    var rest := topics;
    while rest != map[]
      invariant multiset(userEntries) + CacheUsers(rest) == CacheUsers(topics)
      decreases |rest|
    {
      var slug :| slug in rest;
      SumMapRemove(rest, BucketUsers, slug);
      RemoveShrinks(rest, slug);
      userEntries := AppendBucketUsers(userEntries, slug, rest[slug]);
      rest := rest - {slug};
    }
  }

  /** No (slug, topic id) pair is visited twice. */
  ghost predicate Distinct(order: seq<(string, int)>)
  {
    forall i, j :: 0 <= i < j < |order| ==> order[i] != order[j]
  }

  /** Appends the comment rows of one topic (the innermost loop of topicMapToTopicComments). */
  method AppendTopicComments(acc: seq<TopicCommentsEntry>, slug: string, id: int, topic: Topic)
    returns (topicComments: seq<TopicCommentsEntry>)
    ensures topicComments == acc + TopicComments(slug, id, topic)
  {
    topicComments := acc;
    var k := 0;
    while k < |topic.posts|
      invariant 0 <= k <= |topic.posts|
      invariant topicComments == acc + TopicComments(slug, id, topic)[..k]
    {
      var post := topic.posts[k];
      topicComments := topicComments + [TopicCommentsEntry(slug, id, post.id, post.createdAt, post.updatedAt, post.username, false)];
      assert TopicComments(slug, id, topic)[..k + 1] == TopicComments(slug, id, topic)[..k] + [TopicComments(slug, id, topic)[k]];
      k := k + 1;
    }
    assert TopicComments(slug, id, topic)[..k] == TopicComments(slug, id, topic);
  }

  /** Visiting one more topic, not visited before, appends its block. */
  lemma BlocksSnoc(topics: TopicTree, order: seq<(string, int)>, key: (string, int))
    requires forall k :: k in order ==> Cached(topics, k)
    requires Cached(topics, key)
    requires Distinct(order) && key !in order
    ensures forall k :: k in order + [key] ==> Cached(topics, k)
    ensures Distinct(order + [key])
    ensures Blocks(topics, order + [key]) == Blocks(topics, order) + TopicComments(key.0, key.1, topics[key.0][key.1])
  {
    assert (order + [key])[..|order|] == order;
  }

  /** Appends the comment rows of one category's bucket (the middle loop of topicMapToTopicComments). */
  method AppendBucketComments(acc: seq<TopicCommentsEntry>, slug: string, topicList: map<int, Topic>,
                              ghost topics: TopicTree, ghost order: seq<(string, int)>)
    returns (topicComments: seq<TopicCommentsEntry>, ghost order': seq<(string, int)>)
    requires slug in topics && topics[slug] == topicList
    requires forall key :: key in order ==> Cached(topics, key) && key.0 != slug
    requires Distinct(order) && acc == Blocks(topics, order)
    ensures multiset(topicComments) == multiset(acc) + BucketComments(slug, topicList)
    ensures forall key :: key in order' <==> key in order || (key.0 == slug && key.1 in topicList)
    ensures forall key :: key in order' ==> Cached(topics, key)
    ensures Distinct(order') && topicComments == Blocks(topics, order')
  {
    topicComments := acc;
    order' := order;
    var inner := topicList;
    while inner != map[]
      invariant inner.Keys <= topicList.Keys && forall k :: k in inner ==> inner[k] == topicList[k]
      invariant multiset(topicComments) + BucketComments(slug, inner) == multiset(acc) + BucketComments(slug, topicList)
      invariant forall key :: key in order' <==> key in order || (key.0 == slug && key.1 in topicList && key.1 !in inner)
      invariant forall key :: key in order' ==> Cached(topics, key)
      invariant Distinct(order') && topicComments == Blocks(topics, order')
      decreases |inner|
    {
      var id :| id in inner;
      SumMapRemove(inner, TopicCommentsBag(slug), id);
      RemoveShrinks(inner, id);
      assert (slug, id) !in order';
      BlocksSnoc(topics, order', (slug, id));
      topicComments := AppendTopicComments(topicComments, slug, id, inner[id]);
      order' := order' + [(slug, id)];
      inner := inner - {id};
    }
  }

  /**
   * exporter.go, topicMapToTopicComments: one comment row per post of every
   * cached topic; the rows of one topic form one block, in post order.
   */
  method TopicMapToTopicComments(topics: TopicTree) returns (topicComments: seq<TopicCommentsEntry>, ghost order: seq<(string, int)>)
    ensures multiset(topicComments) == CacheComments(topics)
    ensures Distinct(order) && forall key :: key in order <==> Cached(topics, key)
    ensures topicComments == Blocks(topics, order)
  {
    topicComments := [];
    order := [];
    var rest := topics;
    while rest != map[]
      invariant rest.Keys <= topics.Keys && forall s :: s in rest ==> rest[s] == topics[s]
      invariant multiset(topicComments) + CacheComments(rest) == CacheComments(topics)
      invariant forall key :: key in order <==> Cached(topics, key) && key.0 !in rest
      invariant Distinct(order) && topicComments == Blocks(topics, order)
      decreases |rest|
    {
      var slug :| slug in rest;
      SumMapRemove(rest, BucketComments, slug);
      RemoveShrinks(rest, slug);
      topicComments, order := AppendBucketComments(topicComments, slug, rest[slug], topics, order);
      rest := rest - {slug};
    }
  }

  /**
   * A user row is exported exactly when it copies the id, username, name
   * and primary group name of a participant of some cached topic.
   */
  lemma CacheUsersAt(topics: TopicTree, e: UserEntry)
    ensures e in CacheUsers(topics) <==>
            exists s, id, k :: s in topics && id in topics[s] && 0 <= k < |topics[s][id].participants|
                               && e == ToUserEntry(topics[s][id].participants[k])
  {
    if e in CacheUsers(topics) {
      var s, id, k := CachedUserFrom(topics, e);
    }
    if exists s, id, k :: s in topics && id in topics[s] && 0 <= k < |topics[s][id].participants|
                          && e == ToUserEntry(topics[s][id].participants[k]) {
      var s, id, k :| s in topics && id in topics[s] && 0 <= k < |topics[s][id].participants|
                      && e == ToUserEntry(topics[s][id].participants[k]);
      UserCached(topics, s, id, k);
    }
  }

  /** An exported user row comes from some participant of some cached topic. */
  lemma CachedUserFrom(topics: TopicTree, e: UserEntry) returns (s: string, id: int, k: int)
    requires e in CacheUsers(topics)
    ensures s in topics && id in topics[s] && 0 <= k < |topics[s][id].participants|
    ensures e == ToUserEntry(topics[s][id].participants[k])
  {
    InSumMap(topics, BucketUsers, e);
    s :| s in topics && e in BucketUsers(s, topics[s]);
    InSumMap(topics[s], TopicUsersBag, e);
    id :| id in topics[s] && e in TopicUsersBag(id, topics[s][id]);
    var t := topics[s][id];
    assert e in TopicUsers(t);
    k :| 0 <= k < |TopicUsers(t)| && TopicUsers(t)[k] == e;
  }

  /** Every participant of every cached topic has its user row exported. */
  lemma UserCached(topics: TopicTree, s: string, id: int, k: int)
    requires s in topics && id in topics[s] && 0 <= k < |topics[s][id].participants|
    ensures ToUserEntry(topics[s][id].participants[k]) in CacheUsers(topics)
  {
    var e := ToUserEntry(topics[s][id].participants[k]);
    var t := topics[s][id];
    assert TopicUsers(t)[k] == e;
    assert e in TopicUsersBag(id, t);
    InSumMap(topics[s], TopicUsersBag, e);
    assert e in BucketUsers(s, topics[s]);
    InSumMap(topics, BucketUsers, e);
  }

  /**
   * A comment row is exported exactly when it carries, as category slug and
   * topic id, the keys a cached topic is stored under, and copies the id,
   * creation time, update time and username of one of that topic's posts;
   * the initial-post flag is never set.
   */
  lemma CacheCommentsAt(topics: TopicTree, e: TopicCommentsEntry)
    ensures e in CacheComments(topics) <==>
            exists s, id, k :: s in topics && id in topics[s] && 0 <= k < |topics[s][id].posts|
                               && e == TopicCommentsEntry(s, id, topics[s][id].posts[k].id, topics[s][id].posts[k].createdAt,
                                                          topics[s][id].posts[k].updatedAt, topics[s][id].posts[k].username, false)
  {
    if e in CacheComments(topics) {
      var s, id, k := CachedCommentFrom(topics, e);
    }
    if exists s, id, k :: s in topics && id in topics[s] && 0 <= k < |topics[s][id].posts|
                          && e == CommentOf(s, id, topics[s][id].posts[k]) {
      var s, id, k :| s in topics && id in topics[s] && 0 <= k < |topics[s][id].posts|
                      && e == CommentOf(s, id, topics[s][id].posts[k]);
      CommentCached(topics, s, id, k);
    }
  }

  /** An exported comment row comes from some post of some cached topic. */
  lemma CachedCommentFrom(topics: TopicTree, e: TopicCommentsEntry) returns (s: string, id: int, k: int)
    requires e in CacheComments(topics)
    ensures s in topics && id in topics[s] && 0 <= k < |topics[s][id].posts|
    ensures e == CommentOf(s, id, topics[s][id].posts[k])
  {
    InSumMap(topics, BucketComments, e);
    s :| s in topics && e in BucketComments(s, topics[s]);
    InSumMap(topics[s], TopicCommentsBag(s), e);
    id :| id in topics[s] && e in TopicCommentsBag(s)(id, topics[s][id]);
    var t := topics[s][id];
    assert e in TopicComments(s, id, t);
    k :| 0 <= k < |TopicComments(s, id, t)| && TopicComments(s, id, t)[k] == e;
  }

  /** Every post of every cached topic has its comment row exported. */
  lemma CommentCached(topics: TopicTree, s: string, id: int, k: int)
    requires s in topics && id in topics[s] && 0 <= k < |topics[s][id].posts|
    ensures CommentOf(s, id, topics[s][id].posts[k]) in CacheComments(topics)
  {
    var e := CommentOf(s, id, topics[s][id].posts[k]);
    var t := topics[s][id];
    assert TopicComments(s, id, t)[k] == e;
    assert e in TopicCommentsBag(s)(id, t);
    InSumMap(topics[s], TopicCommentsBag(s), e);
    assert e in BucketComments(s, topics[s]);
    InSumMap(topics, BucketComments, e);
  }

  /** Where the block of the `i`-th visited topic starts. */
  ghost function BlockStart(topics: TopicTree, order: seq<(string, int)>, i: int): nat
    requires forall key :: key in order ==> Cached(topics, key)
    requires 0 <= i <= |order|
  {
    assert forall key :: key in order[..i] ==> key in order;
    |Blocks(topics, order[..i])|
  }

  /**
   * Within the comment rows, the rows of each visited topic are contiguous
   * and in the order of its post stream.
   */
  lemma {:induction false} BlockAt(topics: TopicTree, order: seq<(string, int)>, i: int)
    requires forall key :: key in order ==> Cached(topics, key)
    requires 0 <= i < |order|
    ensures Cached(topics, order[i])
    ensures var key := order[i];
            var rows := TopicComments(key.0, key.1, topics[key.0][key.1]);
            var start := BlockStart(topics, order, i);
            start + |rows| <= |Blocks(topics, order)| && Blocks(topics, order)[start..start + |rows|] == rows
    decreases |order|
  {
    var init := order[..|order| - 1];
    assert forall key :: key in init ==> key in order;
    assert order[..i] == init[..i] || i == |order| - 1;
    if i == |order| - 1 {
      assert order[..i] == init;
    } else {
      BlockAt(topics, init, i);
      assert init[..i] == order[..i];
    }
  }

  /**
   * exporter.go, InitExporter: only "mysql" is accepted; its connection
   * and schema-initialisation results are supplied as oracle outcomes.
   */
  function InitExporter(exportType: string, connect: Outcome<Error>, initialize: Outcome<Error>): (r: Outcome<Error>)
    ensures exportType != "mysql" ==> r == Fail(InvalidExporterType(exportType))
    ensures exportType == "mysql" ==> (r.Pass? <==> connect.Pass? && initialize.Pass?)
    ensures exportType == "mysql" && connect.Fail? ==> r == connect
    ensures exportType == "mysql" && connect.Pass? ==> r == initialize
  {
    if exportType == "mysql" then
      if connect.Fail? then connect else initialize
    else
      Fail(InvalidExporterType(exportType))
  }
}
