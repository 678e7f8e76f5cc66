/**
 * The shapes of the forum client's data that the collector and the
 * exporter read. Only the fields the core touches are kept; time values
 * are integer instants, compared as integers.
 */
module Forum {

  /** An instant; `a >= b` is Go's `a.Compare(b) >= 0`. */
  type Timestamp = int

  /** A participant listed in a topic's details. */
  datatype Participant = Participant(id: int, username: string, name: string, primaryGroupName: string)

  /** One post of a topic's post stream. */
  datatype Post = Post(id: int, username: string, createdAt: Timestamp, updatedAt: Timestamp)

  /** A fetched topic: its last activity, its post stream and its participants. */
  datatype Topic = Topic(id: int, lastPostedAt: Timestamp, posts: seq<Post>, participants: seq<Participant>)

  /** An entry of a category's topic listing. */
  datatype TopicOverview = TopicOverview(id: int, lastPostedAt: Timestamp)

  /** The cache: category slug -> topic id -> topic. */
  type TopicTree = map<string, map<int, Topic>>
}
