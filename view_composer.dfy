/**
  The join shape shared by the point lookup and the list (`all_joins`): for one
  report and one viewer, the joined row, and the select list that turns it into
  a `CommentReportView` with its derived fields.
 */
module ViewComposer {
  import opened SqlNull
  import opened Tables

  /**
    One row of the joined query before the select list: the rows found by the
    inner joins, and each left-joined row as an `Option`.  `my*` rows belong to
    the viewer; `creator*` rows to the comment's creator.
   */
  datatype JoinedRow = JoinedRow(
    report: CommentReport,
    comment: Comment,
    post: Post,
    community: Community,
    creator: Person,
    commentCreator: Person,
    counts: CommentAggregates,
    myCommentActions: Option<CommentActions>,
    resolver: Option<Person>,
    creatorCommunityActions: Option<CommunityActions>,
    creatorAdmin: Option<LocalUser>,
    myPersonActions: Option<PersonActions>,
    myCommunityActions: Option<CommunityActions>)

  /** The view of one report as one viewer sees it. */
  datatype CommentReportView = CommentReportView(
    commentReport: CommentReport,
    comment: Comment,
    post: Post,
    community: Community,
    creator: Person,
    commentCreator: Person,
    counts: CommentAggregates,
    creatorBannedFromCommunity: bool,
    creatorIsModerator: bool,
    creatorIsAdmin: bool,
    creatorBlocked: bool,
    subscribed: SubscribedType,
    saved: bool,
    myVote: Option<int>,
    resolver: Option<Person>)

  /** Left join of person (as the resolver) on `resolver_id`. */
  function ResolverOf(persons: map<PersonId, Person>, resolverId: Option<PersonId>): Option<Person>
  {
    match resolverId
    case None => None
    case Some(id) => if id in persons then Some(persons[id]) else None
  }

  /**
    The joins of `all_joins` for report `r` and viewer `myPersonId`.  The inner
    joins drop a report whose comment, post, community, reporter, comment creator
    or aggregates row is missing.
   */
  function JoinReport(db: Db, myPersonId: PersonId, r: CommentReport): (j: Option<JoinedRow>)
    ensures j.Some? <==> Intact(db, r)
    ensures j.Some? ==> j.value.report == r && j.value.post == PostOf(db, r)
    ensures j.Some? ==> j.value.comment == db.comments[r.commentId]
    ensures j.Some? ==>
      && j.value.community == db.communities[PostOf(db, r).communityId]
      && j.value.creator == db.persons[r.creatorId]
      && j.value.commentCreator == db.persons[db.comments[r.commentId].creatorId]
      && j.value.counts == db.commentAggregates[r.commentId]
  {
    if !Intact(db, r) then None
    else
      var comment := db.comments[r.commentId];
      var post := db.posts[comment.postId];
      Some(JoinedRow(
        report := r,
        comment := comment,
        post := post,
        community := db.communities[post.communityId],
        creator := db.persons[r.creatorId],
        commentCreator := db.persons[comment.creatorId],
        counts := db.commentAggregates[r.commentId],
        myCommentActions := FindByKey(db.commentActions, CommentActionsKey, (myPersonId, r.commentId)),
        resolver := ResolverOf(db.persons, r.resolverId),
        creatorCommunityActions := FindByKey(db.communityActions, CommunityActionsKey, (comment.creatorId, post.communityId)),
        creatorAdmin := FindByKey(db.localUsers, AdminKey, (comment.creatorId, true)),
        myPersonActions := FindByKey(db.personActions, PersonActionsKey, (myPersonId, comment.creatorId)),
        myCommunityActions := FindByKey(db.communityActions, CommunityActionsKey, (myPersonId, post.communityId))))
  }

  /** The subscription state read from the viewer's community_actions row. */
  function SubscribedOf(row: Option<CommunityActions>): SubscribedType
  {
    match row
    case None => NotSubscribed
    case Some(a) => a.followState
  }

  /** The select list: each derived field is a NULL test or a column of a left-joined row. */
  function Select(j: JoinedRow, now: Timestamp): CommentReportView
  {
    var creatorActions := j.creatorCommunityActions;
    CommentReportView(
      commentReport := j.report,
      comment := j.comment,
      post := j.post,
      community := j.community,
      creator := j.creator,
      commentCreator := j.commentCreator,
      counts := j.counts,
      creatorBannedFromCommunity := Coalesce(
        Or(Some(IsNotNull(Column(creatorActions, (a: CommunityActions) => a.receivedBan))),
           Gt(Column(creatorActions, (a: CommunityActions) => a.banExpires), now)),
        false),
      creatorIsModerator := IsNotNull(Column(creatorActions, (a: CommunityActions) => a.becameModerator)),
      creatorIsAdmin := IsNotNull(Column(j.creatorAdmin, (u: LocalUser) => Some(u.admin))),
      creatorBlocked := IsNotNull(Column(j.myPersonActions, (a: PersonActions) => a.blocked)),
      subscribed := SubscribedOf(j.myCommunityActions),
      saved := IsNotNull(Column(j.myCommentActions, (a: CommentActions) => a.saved)),
      myVote := Column(j.myCommentActions, (a: CommentActions) => a.likeScore),
      resolver := j.resolver)
  }

  /** The view of one intact report for one viewer. */
  function ViewOf(db: Db, myPersonId: PersonId, r: CommentReport, now: Timestamp): (v: CommentReportView)
    requires Intact(db, r)
    ensures v.commentReport == r && v.comment == db.comments[r.commentId] && v.post == PostOf(db, r)
    ensures v.community == db.communities[v.post.communityId]
    ensures v.creator == db.persons[r.creatorId] && v.commentCreator == db.persons[v.comment.creatorId]
    ensures v.counts == db.commentAggregates[r.commentId]
  {
    Select(JoinReport(db, myPersonId, r).value, now)
  }

  /** `all_joins` over a run of report rows, in table order. */
  function JoinAll(db: Db, myPersonId: PersonId, rs: seq<CommentReport>): seq<JoinedRow>
  {
    if rs == [] then []
    else
      var head := match JoinReport(db, myPersonId, rs[0]) case None => [] case Some(j) => [j];
      head + JoinAll(db, myPersonId, rs[1..])
  }

  /** `all_joins` over the whole report table. */
  function AllJoins(db: Db, myPersonId: PersonId): seq<JoinedRow>
  {
    JoinAll(db, myPersonId, db.reports)
  }

  /** The joined rows are exactly the joins of the intact reports. */
  lemma {:induction false} JoinAllMembers(db: Db, myPersonId: PersonId, rs: seq<CommentReport>)
    ensures forall j | j in JoinAll(db, myPersonId, rs) ::
      j.report in rs && Intact(db, j.report) && JoinReport(db, myPersonId, j.report) == Some(j)
    ensures forall r | r in rs && Intact(db, r) :: JoinReport(db, myPersonId, r).value in JoinAll(db, myPersonId, rs)
  {
    if rs != [] {
      JoinAllMembers(db, myPersonId, rs[1..]);
      assert forall r | r in rs :: r == rs[0] || r in rs[1..];
    }
  }

  /** The intact rows of `rs`, in table order: the rows the inner joins keep. */
  ghost function IntactRows(db: Db, rs: seq<CommentReport>): seq<CommentReport>
  {
    if rs == [] then []
    else (if Intact(db, rs[0]) then [rs[0]] else []) + IntactRows(db, rs[1..])
  }

  /** The inner joins keep one joined row per intact report row, in table order, and drop the others. */
  lemma {:induction false} JoinAllReports(db: Db, myPersonId: PersonId, rs: seq<CommentReport>)
    ensures |JoinAll(db, myPersonId, rs)| == |IntactRows(db, rs)|
    ensures forall i | 0 <= i < |JoinAll(db, myPersonId, rs)| ::
      JoinAll(db, myPersonId, rs)[i].report == IntactRows(db, rs)[i]
  {
    if rs != [] {
      JoinAllReports(db, myPersonId, rs[1..]);
      var joined := JoinAll(db, myPersonId, rs);
      var tail := JoinAll(db, myPersonId, rs[1..]);
      var kept := IntactRows(db, rs);
      if Intact(db, rs[0]) {
        assert joined == [JoinReport(db, myPersonId, rs[0]).value] + tail;
        assert kept == [rs[0]] + IntactRows(db, rs[1..]);
        forall i | 0 <= i < |joined| ensures joined[i].report == kept[i] {
          if i > 0 {
            assert joined[i] == tail[i - 1];
          }
        }
      } else {
        assert joined == tail;
        assert kept == IntactRows(db, rs[1..]);
      }
    }
  }

  /**
    creator_banned_from_community holds exactly when the comment creator's
    community_actions row for the post's community has a ban, or a ban expiry
    still in the future; it is false when that row is absent.
   */
  lemma CreatorBannedMeaning(db: Db, myPersonId: PersonId, r: CommentReport, now: Timestamp)
    requires Keyed(db) && Intact(db, r)
    ensures var v := ViewOf(db, myPersonId, r, now);
      v.creatorBannedFromCommunity <==>
        exists a :: a in db.communityActions && a.personId == v.comment.creatorId
          && a.communityId == v.post.communityId
          && (a.receivedBan.Some? || (a.banExpires.Some? && a.banExpires.value > now))
  {
    var v := ViewOf(db, myPersonId, r, now);
    var row := JoinReport(db, myPersonId, r).value.creatorCommunityActions;
    if a :| (a in db.communityActions && a.personId == v.comment.creatorId
             && a.communityId == v.post.communityId
             && (a.receivedBan.Some? || (a.banExpires.Some? && a.banExpires.value > now)))
    {
      FindByKeyUnique(db.communityActions, CommunityActionsKey, a);
      assert row == Some(a);
    }
  }

  /**
    creator_is_moderator holds exactly when the comment creator's
    community_actions row for the post's community has became_moderator set.
   */
  lemma CreatorIsModeratorMeaning(db: Db, myPersonId: PersonId, r: CommentReport, now: Timestamp)
    requires Keyed(db) && Intact(db, r)
    ensures var v := ViewOf(db, myPersonId, r, now);
      v.creatorIsModerator <==> ModeratorOf(db, v.comment.creatorId, v.post.communityId)
  {
    var v := ViewOf(db, myPersonId, r, now);
    if ModeratorOf(db, v.comment.creatorId, v.post.communityId) {
      var a :| a in db.communityActions && a.personId == v.comment.creatorId
        && a.communityId == v.post.communityId && a.becameModerator.Some?;
      FindByKeyUnique(db.communityActions, CommunityActionsKey, a);
    }
  }

  /** creator_is_admin holds exactly when a local_user row of the comment creator has admin = true. */
  lemma CreatorIsAdminMeaning(db: Db, myPersonId: PersonId, r: CommentReport, now: Timestamp)
    requires Intact(db, r)
    ensures var v := ViewOf(db, myPersonId, r, now);
      v.creatorIsAdmin <==> exists u :: u in db.localUsers && u.personId == v.comment.creatorId && u.admin
  {
    var v := ViewOf(db, myPersonId, r, now);
    if u :| u in db.localUsers && u.personId == v.comment.creatorId && u.admin {
      assert AdminKey(u) == (v.comment.creatorId, true);
    }
  }

  /**
    creator_blocked, saved, my_vote and subscribed come from the viewer's own
    rows only, and are false / NULL / not subscribed when the row is absent.
   */
  lemma ViewerFieldsMeaning(db: Db, myPersonId: PersonId, r: CommentReport, now: Timestamp)
    requires Keyed(db) && Intact(db, r)
    ensures var v := ViewOf(db, myPersonId, r, now);
      && (v.creatorBlocked <==>
            exists a :: a in db.personActions && a.personId == myPersonId
              && a.targetId == v.comment.creatorId && a.blocked.Some?)
      && (v.saved <==>
            exists a :: a in db.commentActions && a.personId == myPersonId
              && a.commentId == r.commentId && a.saved.Some?)
      && (forall a | a in db.commentActions && a.personId == myPersonId && a.commentId == r.commentId ::
            v.myVote == a.likeScore)
      && ((forall a | a in db.commentActions :: a.personId != myPersonId || a.commentId != r.commentId) ==>
            v.myVote.None?)
      && (forall a | a in db.communityActions && a.personId == myPersonId && a.communityId == v.post.communityId ::
            v.subscribed == a.followState)
      && ((forall a | a in db.communityActions :: a.personId != myPersonId || a.communityId != v.post.communityId) ==>
            v.subscribed == NotSubscribed)
  {
    var v := ViewOf(db, myPersonId, r, now);
    forall a | a in db.personActions && a.personId == myPersonId && a.targetId == v.comment.creatorId
      ensures v.creatorBlocked == a.blocked.Some?
    {
      FindByKeyUnique(db.personActions, PersonActionsKey, a);
    }
    forall a | a in db.commentActions && a.personId == myPersonId && a.commentId == r.commentId
      ensures v.saved == a.saved.Some? && v.myVote == a.likeScore
    {
      FindByKeyUnique(db.commentActions, CommentActionsKey, a);
    }
    forall a | a in db.communityActions && a.personId == myPersonId && a.communityId == v.post.communityId
      ensures v.subscribed == a.followState
    {
      FindByKeyUnique(db.communityActions, CommunityActionsKey, a);
    }
  }

  /** resolver is the person whose id is resolver_id, and is absent when resolver_id is NULL. */
  lemma ResolverMeaning(db: Db, myPersonId: PersonId, r: CommentReport, now: Timestamp)
    requires Keyed(db) && Intact(db, r)
    ensures var v := ViewOf(db, myPersonId, r, now);
      && (r.resolverId.None? ==> v.resolver.None?)
      && (r.resolverId.Some? && r.resolverId.value in db.persons ==> v.resolver.Some?)
      && (v.resolver.Some? ==> v.resolver.value in db.persons.Values && Some(v.resolver.value.id) == r.resolverId)
  {
  }

  /**
    The viewer only selects rows of the actions tables: which reports join, and
    every field not read from the viewer's rows, are the same for every viewer.
   */
  lemma ViewerDoesNotFilter(db: Db, me: PersonId, other: PersonId, r: CommentReport, now: Timestamp)
    requires Intact(db, r)
    ensures JoinReport(db, me, r).Some? == JoinReport(db, other, r).Some?
    ensures var v, w := ViewOf(db, me, r, now), ViewOf(db, other, r, now);
      v == w.(creatorBlocked := v.creatorBlocked, subscribed := v.subscribed, saved := v.saved, myVote := v.myVote)
  {
  }
}
