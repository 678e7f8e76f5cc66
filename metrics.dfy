/** The exported record shapes. */
module Metrics {
  import opened Forum

  /** One exported post. */
  datatype TopicCommentsEntry = TopicCommentsEntry(
    categorySlug: string,
    topicId: int,
    postId: int,
    creationTime: Timestamp,
    updateTime: Timestamp,
    username: string,
    isInitialPost: bool)

  /** One exported edit of a topic's main post. */
  datatype TopicEditsEntry = TopicEditsEntry(
    topicId: int,
    editNumber: int,
    creationTime: Timestamp,
    username: string)

  /** One exported user. */
  datatype UserEntry = UserEntry(
    userId: int,
    username: string,
    name: string,
    primaryGroupName: string)

  /** Everything that can be exported in one document. A Go nil slice is the empty sequence. */
  datatype DataToExport = DataToExport(
    posts: seq<TopicCommentsEntry>,
    edits: seq<TopicEditsEntry>,
    users: seq<UserEntry>)

  /** What the user asked to export, and the collection limits. */
  datatype ItemsToExport = ItemsToExport(
    topicComments: bool,
    topicEdits: bool,
    users: bool,
    limitToCategorySlug: string,
    limitToTopicId: int)
}
