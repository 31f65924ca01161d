/**
  The tables the comment-report queries read, held in memory.  Entity tables
  (comment, post, community, person, comment_aggregates) are maps from primary
  key to row; comment_report, local_user and the three `*_actions` relationship
  tables are sequences of rows in table order, so that a join on their columns
  is a scan and their keys are constraints stated in `Keyed`.
 */
module Tables {
  import opened SqlNull

  type PersonId = int
  type CommentId = int
  type PostId = int
  type CommunityId = int
  type CommentReportId = int
  type LocalUserId = int
  /** A point in time; `now` is passed in wherever the source reads the clock. */
  type Timestamp = int

  datatype CommentReport = CommentReport(
    id: CommentReportId,
    creatorId: PersonId,
    commentId: CommentId,
    originalCommentText: string,
    reason: string,
    resolved: bool,
    resolverId: Option<PersonId>,
    published: Timestamp,
    updated: Option<Timestamp>)

  datatype Comment = Comment(id: CommentId, creatorId: PersonId, postId: PostId, content: string)

  datatype Post = Post(id: PostId, name: string, creatorId: PersonId, communityId: CommunityId)

  /** The remaining community columns are carried as an opaque payload. */
  datatype Community = Community(id: CommunityId, name: string, title: string)

  /** The remaining person columns are carried as an opaque payload. */
  datatype Person = Person(id: PersonId, name: string)

  /** The integer counters of comment_aggregates; the float ranks are not modelled. */
  datatype CommentAggregates = CommentAggregates(
    commentId: CommentId, score: int, upvotes: int, downvotes: int, childCount: int)

  datatype LocalUser = LocalUser(id: LocalUserId, personId: PersonId, admin: bool)

  /** The viewer's follow state of a community, as the view reports it. */
  datatype SubscribedType = Subscribed | NotSubscribed | Pending

  /** comment_actions: what one person did to one comment. */
  datatype CommentActions = CommentActions(
    personId: PersonId, commentId: CommentId, saved: Option<Timestamp>, likeScore: Option<int>)

  /** person_actions: what one person did to another (target) person. */
  datatype PersonActions = PersonActions(personId: PersonId, targetId: PersonId, blocked: Option<Timestamp>)

  /** community_actions: one person's standing in one community. */
  datatype CommunityActions = CommunityActions(
    personId: PersonId,
    communityId: CommunityId,
    followState: SubscribedType,
    becameModerator: Option<Timestamp>,
    receivedBan: Option<Timestamp>,
    banExpires: Option<Timestamp>)

  datatype Db = Db(
    reports: seq<CommentReport>,
    comments: map<CommentId, Comment>,
    posts: map<PostId, Post>,
    communities: map<CommunityId, Community>,
    persons: map<PersonId, Person>,
    commentAggregates: map<CommentId, CommentAggregates>,
    localUsers: seq<LocalUser>,
    commentActions: seq<CommentActions>,
    personActions: seq<PersonActions>,
    communityActions: seq<CommunityActions>)

  // Keys of the sequence tables.
  function ReportKey(r: CommentReport): CommentReportId { r.id }
  function LocalUserKey(u: LocalUser): PersonId { u.personId }
  /** The condition of the left join on local_user: this person, and `admin = true`. */
  function AdminKey(u: LocalUser): (PersonId, bool) { (u.personId, u.admin) }
  function CommentActionsKey(a: CommentActions): (PersonId, CommentId) { (a.personId, a.commentId) }
  function PersonActionsKey(a: PersonActions): (PersonId, PersonId) { (a.personId, a.targetId) }
  function CommunityActionsKey(a: CommunityActions): (PersonId, CommunityId) { (a.personId, a.communityId) }

  /** The primary keys and unique constraints of the store. */
  ghost predicate Keyed(db: Db)
  {
    && UniqueKeys(db.reports, ReportKey)
    && UniqueKeys(db.localUsers, LocalUserKey)
    && UniqueKeys(db.commentActions, CommentActionsKey)
    && UniqueKeys(db.personActions, PersonActionsKey)
    && UniqueKeys(db.communityActions, CommunityActionsKey)
    && (forall id | id in db.persons :: db.persons[id].id == id)
    && (forall id | id in db.comments :: db.comments[id].id == id)
    && (forall id | id in db.posts :: db.posts[id].id == id)
    && (forall id | id in db.communities :: db.communities[id].id == id)
    && (forall id | id in db.commentAggregates :: db.commentAggregates[id].commentId == id)
  }

  /** Every foreign key of report `r` that the view joins with an inner join leads to a row. */
  predicate Intact(db: Db, r: CommentReport)
  {
    && r.commentId in db.comments
    && db.comments[r.commentId].postId in db.posts
    && db.posts[db.comments[r.commentId].postId].communityId in db.communities
    && r.creatorId in db.persons
    && db.comments[r.commentId].creatorId in db.persons
    && r.commentId in db.commentAggregates
  }

  /** Referential integrity of the report table, with the keys. */
  ghost predicate Valid(db: Db)
  {
    Keyed(db) && forall r | r in db.reports :: Intact(db, r)
  }

  /** The post under which the reported comment sits. */
  function PostOf(db: Db, r: CommentReport): Post
    requires r.commentId in db.comments && db.comments[r.commentId].postId in db.posts
  {
    db.posts[db.comments[r.commentId].postId]
  }

  /** Ground truth, read straight off community_actions: `p` moderates community `c`. */
  ghost predicate ModeratorOf(db: Db, p: PersonId, c: CommunityId)
  {
    exists a :: a in db.communityActions && a.personId == p && a.communityId == c && a.becameModerator.Some?
  }
}
