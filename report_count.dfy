/**
  The moderation-queue count (`get_report_count`) and the effect of resolving
  a report.  The count uses its own, narrower joins and, for a non-admin, an
  INNER join with the viewer's moderator rows, where the list uses a LEFT join
  tested for NULL; both forms are kept and proved to agree.
 */
module ReportCount {
  import opened SqlNull
  import opened Tables
  import opened ViewComposer
  import opened ReportQueries

  /** One row of `comment_report INNER JOIN comment INNER JOIN post`. */
  datatype CountRow = CountRow(report: CommentReport, comment: Comment, post: Post)

  datatype CountCond =
    | CountUnresolved                            // comment_report.resolved = false
    | CountCommunityIs(communityId: CommunityId) // post.community_id = ?

  function CountCondHolds(c: CountCond, row: CountRow): bool
  {
    match c
    case CountUnresolved => !row.report.resolved
    case CountCommunityIs(id) => row.post.communityId == id
  }

  predicate CountHolds(conds: seq<CountCond>, row: CountRow)
  {
    forall i | 0 <= i < |conds| :: CountCondHolds(conds[i], row)
  }

  function CountWhere(rows: seq<CountRow>, conds: seq<CountCond>): seq<CountRow>
  {
    if rows == [] then []
    else (if CountHolds(conds, rows[0]) then [rows[0]] else []) + CountWhere(rows[1..], conds)
  }

  /** The count's joins over a run of report rows. */
  function CountJoin(db: Db, rs: seq<CommentReport>): seq<CountRow>
  {
    if rs == [] then []
    else
      var r := rs[0];
      var head :=
        if r.commentId in db.comments && db.comments[r.commentId].postId in db.posts
        then [CountRow(r, db.comments[r.commentId], PostOf(db, r))]
        else [];
      head + CountJoin(db, rs[1..])
  }

  /** The community_actions rows matched by the inner join's ON clause: this viewer, this community, a moderator. */
  function ModeratorRows(table: seq<CommunityActions>, me: PersonId, c: CommunityId): seq<CommunityActions>
  {
    if table == [] then []
    else
      var a := table[0];
      (if a.communityId == c && a.personId == me && a.becameModerator.Some? then [a] else [])
      + ModeratorRows(table[1..], me, c)
  }

  /** `INNER JOIN community_actions ON ...`: one output row for every matching pair. */
  function ModeratorJoin(rows: seq<CountRow>, table: seq<CommunityActions>, me: PersonId)
    : seq<(CountRow, CommunityActions)>
  {
    if rows == [] then []
    else
      var matches := ModeratorRows(table, me, rows[0].post.communityId);
      seq(|matches|, i requires 0 <= i < |matches| => (rows[0], matches[i]))
      + ModeratorJoin(rows[1..], table, me)
  }

  /** The count query over a run of report rows. */
  function CountOf(db: Db, myPersonId: PersonId, admin: bool, communityId: Option<CommunityId>, rs: seq<CommentReport>)
    : nat
  {
    var conds := [CountUnresolved] + (match communityId case None => [] case Some(c) => [CountCommunityIs(c)]);
    var rows := CountWhere(CountJoin(db, rs), conds);
    if !admin then |ModeratorJoin(rows, db.communityActions, myPersonId)| else |rows|
  }

  /** `get_report_count`: it has no comment filter and no page. */
  function GetReportCount(db: Db, myPersonId: PersonId, admin: bool, communityId: Option<CommunityId>): nat
  {
    CountOf(db, myPersonId, admin, communityId, db.reports)
  }

  /** The options of the unresolved-only list that the count is meant to agree with. */
  function QueueOptions(communityId: Option<CommunityId>): CommentReportQuery
  {
    CommentReportQuery(communityId, None, true)
  }

  /** Reference count: the reports of `rs` that the unresolved-only list admits. */
  ghost function Admitted(db: Db, user: LocalUserView, communityId: Option<CommunityId>, rs: seq<CommentReport>): nat
    requires forall r | r in rs :: Intact(db, r)
  {
    if rs == [] then 0
    else
      (if Admits(db, user, QueueOptions(communityId), rs[0]) then 1 else 0)
      + Admitted(db, user, communityId, rs[1..])
  }

  // ---------------------------------------------------------------------------
  // The count against the reference

  lemma {:induction false} CountWhereAppend(a: seq<CountRow>, b: seq<CountRow>, conds: seq<CountCond>)
    ensures CountWhere(a + b, conds) == CountWhere(a, conds) + CountWhere(b, conds)
  {
    if a == [] {
      assert a + b == b;
    } else {
      var head := if CountHolds(conds, a[0]) then [a[0]] else [];
      assert (a + b)[0] == a[0];
      assert (a + b)[1..] == a[1..] + b;
      assert CountWhere(a + b, conds) == head + CountWhere(a[1..] + b, conds);
      CountWhereAppend(a[1..], b, conds);
      assert head + (CountWhere(a[1..], conds) + CountWhere(b, conds)) == (head + CountWhere(a[1..], conds)) + CountWhere(b, conds);
    }
  }

  lemma {:induction false} ModeratorJoinAppend(a: seq<CountRow>, b: seq<CountRow>, table: seq<CommunityActions>, me: PersonId)
    ensures |ModeratorJoin(a + b, table, me)| == |ModeratorJoin(a, table, me)| + |ModeratorJoin(b, table, me)|
  {
    if a == [] {
      assert a + b == b;
    } else {
      assert (a + b)[0] == a[0];
      assert (a + b)[1..] == a[1..] + b;
      ModeratorJoinAppend(a[1..], b, table, me);
    }
  }

  lemma {:induction false} ModeratorRowsNone(table: seq<CommunityActions>, me: PersonId, c: CommunityId)
    requires forall a | a in table :: a.personId != me || a.communityId != c
    ensures ModeratorRows(table, me, c) == []
  {
    if table != [] {
      assert table[0] in table;
      ModeratorRowsNone(table[1..], me, c);
    }
  }

  /**
    Under the (person, community) key of community_actions the inner join
    matches at most one row: exactly one when the viewer moderates the community.
   */
  lemma {:induction false} ModeratorRowsCount(table: seq<CommunityActions>, me: PersonId, c: CommunityId)
    requires UniqueKeys(table, CommunityActionsKey)
    ensures |ModeratorRows(table, me, c)| ==
      if exists a :: a in table && a.personId == me && a.communityId == c && a.becameModerator.Some? then 1 else 0
  {
    if table != [] {
      var a := table[0];
      UniqueKeysTail(table, CommunityActionsKey);
      assert forall b | b in table :: b == a || b in table[1..];
      if a.personId == me && a.communityId == c {
        forall b | b in table[1..] ensures b.personId != me || b.communityId != c {
          var k :| 0 <= k < |table[1..]| && table[1..][k] == b;
          assert CommunityActionsKey(table[0]) != CommunityActionsKey(table[k + 1]);
        }
        ModeratorRowsNone(table[1..], me, c);
      } else {
        ModeratorRowsCount(table[1..], me, c);
      }
    }
  }

  /** The count over a run of reports is the count of its first report plus that of the rest. */
  lemma CountOfCons(db: Db, myPersonId: PersonId, admin: bool, communityId: Option<CommunityId>, rs: seq<CommentReport>)
    requires rs != []
    ensures CountOf(db, myPersonId, admin, communityId, rs)
         == CountOf(db, myPersonId, admin, communityId, [rs[0]]) + CountOf(db, myPersonId, admin, communityId, rs[1..])
  {
    var conds := [CountUnresolved] + (match communityId case None => [] case Some(c) => [CountCommunityIs(c)]);
    var r := rs[0];
    var head :=
      if r.commentId in db.comments && db.comments[r.commentId].postId in db.posts
      then [CountRow(r, db.comments[r.commentId], PostOf(db, r))]
      else [];
    assert [r][1..] == [];
    assert CountJoin(db, [r]) == head + [];
    assert head + [] == head;
    CountWhereAppend(head, CountJoin(db, rs[1..]), conds);
    ModeratorJoinAppend(CountWhere(head, conds), CountWhere(CountJoin(db, rs[1..]), conds), db.communityActions, myPersonId);
  }

  /** One intact report is counted exactly when the unresolved-only list admits it. */
  lemma CountOfOne(db: Db, user: LocalUserView, communityId: Option<CommunityId>, r: CommentReport)
    requires Keyed(db) && Intact(db, r)
    ensures CountOf(db, user.personId, user.admin, communityId, [r])
         == if Admits(db, user, QueueOptions(communityId), r) then 1 else 0
  {
    var conds := [CountUnresolved] + (match communityId case None => [] case Some(c) => [CountCommunityIs(c)]);
    var row := CountRow(r, db.comments[r.commentId], PostOf(db, r));
    assert [r][1..] == [];
    assert CountJoin(db, [r]) == [row];
    assert CountWhere([row], conds) == if CountHolds(conds, row) then [row] else [] by {
      assert [row][1..] == [];
    }
    assert CountHolds(conds, row) <==> (!r.resolved && (communityId.Some? ==> row.post.communityId == communityId.value)) by {
      assert CountUnresolved in conds;
      if communityId.Some? {
        assert CountCommunityIs(communityId.value) in conds;
      }
    }
    if CountHolds(conds, row) && !user.admin {
      var matches := ModeratorRows(db.communityActions, user.personId, row.post.communityId);
      ModeratorRowsCount(db.communityActions, user.personId, row.post.communityId);
      assert [row][1..] == [];
      assert |ModeratorJoin([row], db.communityActions, user.personId)| == |matches|;
    }
  }

  lemma {:induction false} CountOfIsAdmitted(db: Db, user: LocalUserView, communityId: Option<CommunityId>, rs: seq<CommentReport>)
    requires Keyed(db)
    requires forall r | r in rs :: Intact(db, r)
    ensures CountOf(db, user.personId, user.admin, communityId, rs) == Admitted(db, user, communityId, rs)
  {
    if rs != [] {
      assert rs[0] in rs;
      CountOfCons(db, user.personId, user.admin, communityId, rs);
      CountOfOne(db, user, communityId, rs[0]);
      CountOfIsAdmitted(db, user, communityId, rs[1..]);
    }
  }

  lemma {:induction false} WhereJoinsIsAdmitted(db: Db, user: LocalUserView, communityId: Option<CommunityId>, rs: seq<CommentReport>)
    requires Keyed(db)
    requires forall r | r in rs :: Intact(db, r)
    ensures |Where(JoinAll(db, user.personId, rs), ListConds(QueueOptions(communityId), user.admin))| ==
      Admitted(db, user, communityId, rs)
  {
    if rs != [] {
      var conds := ListConds(QueueOptions(communityId), user.admin);
      var j := JoinReport(db, user.personId, rs[0]).value;
      assert rs[0] in rs;
      WhereAppend([j], JoinAll(db, user.personId, rs[1..]), conds);
      ListCondsMeaning(db, user, QueueOptions(communityId), rs[0]);
      WhereJoinsIsAdmitted(db, user, communityId, rs[1..]);
    }
  }

  /** The count equals the reference count of admitted reports. */
  lemma CountIsAdmitted(db: Db, user: LocalUserView, communityId: Option<CommunityId>)
    requires Valid(db)
    ensures GetReportCount(db, user.personId, user.admin, communityId) == Admitted(db, user, communityId, db.reports)
  {
    CountOfIsAdmitted(db, user, communityId, db.reports);
  }

  /**
    The count's inner join and the list's left-join-then-test agree: with
    integrity and keys, the count is the length of the unpaginated
    unresolved-only list for the same viewer and community.
   */
  lemma CountMatchesList(db: Db, user: LocalUserView, communityId: Option<CommunityId>, now: Timestamp)
    requires Valid(db)
    ensures GetReportCount(db, user.personId, user.admin, communityId) == |ListAll(db, user, QueueOptions(communityId), now)|
  {
    CountOfIsAdmitted(db, user, communityId, db.reports);
    WhereJoinsIsAdmitted(db, user, communityId, db.reports);
    var filtered := Where(AllJoins(db, user.personId), ListConds(QueueOptions(communityId), user.admin));
    assert |SortRows(ListOrder(QueueOptions(communityId)), filtered)| == |multiset(filtered)|;
  }

  // ---------------------------------------------------------------------------
  // Resolving a report

  function ResolveRows(rs: seq<CommentReport>, reportId: CommentReportId, resolverId: PersonId): seq<CommentReport>
  {
    seq(|rs|, i requires 0 <= i < |rs| =>
      if rs[i].id == reportId then rs[i].(resolved := true, resolverId := Some(resolverId)) else rs[i])
  }

  /** The effect of `CommentReport::resolve`: resolved, and the resolver recorded. */
  function Resolve(db: Db, reportId: CommentReportId, resolverId: PersonId): (after: Db)
    ensures after == db.(reports := after.reports)
    ensures |after.reports| == |db.reports|
    ensures forall i | 0 <= i < |db.reports| ::
      after.reports[i] == if db.reports[i].id == reportId
        then db.reports[i].(resolved := true, resolverId := Some(resolverId))
        else db.reports[i]
  {
    db.(reports := ResolveRows(db.reports, reportId, resolverId))
  }

  /** Resolving keeps the keys and the integrity of the store. */
  lemma ResolveKeepsValid(db: Db, reportId: CommentReportId, resolverId: PersonId)
    ensures Keyed(db) ==> Keyed(Resolve(db, reportId, resolverId))
    ensures Valid(db) ==> Valid(Resolve(db, reportId, resolverId))
  {
    var rs := ResolveRows(db.reports, reportId, resolverId);
    assert forall i | 0 <= i < |rs| :: ReportKey(rs[i]) == ReportKey(db.reports[i]);
    if Valid(db) {
      forall r | r in rs ensures Intact(db, r) {
        var i :| 0 <= i < |rs| && rs[i] == r;
        assert db.reports[i] in db.reports;
      }
    }
  }

  lemma {:induction false} AdmittedIgnoresReportTable(db: Db, other: Db, user: LocalUserView, communityId: Option<CommunityId>, rs: seq<CommentReport>)
    requires other == db.(reports := other.reports)
    requires forall r | r in rs :: Intact(db, r)
    ensures forall r | r in rs :: Intact(other, r)
    ensures Admitted(other, user, communityId, rs) == Admitted(db, user, communityId, rs)
  {
    if rs != [] {
      AdmittedIgnoresReportTable(db, other, user, communityId, rs[1..]);
    }
  }

  lemma {:induction false} AdmittedAfterResolve(db: Db, user: LocalUserView, communityId: Option<CommunityId>,
                                                rs: seq<CommentReport>, r: CommentReport, resolverId: PersonId)
    requires UniqueKeys(rs, ReportKey)
    requires forall x | x in rs :: Intact(db, x)
    requires r in rs && Admits(db, user, QueueOptions(communityId), r)
    ensures forall x | x in ResolveRows(rs, r.id, resolverId) :: Intact(db, x)
    ensures Admitted(db, user, communityId, ResolveRows(rs, r.id, resolverId)) == Admitted(db, user, communityId, rs) - 1
  {
    var after := ResolveRows(rs, r.id, resolverId);
    assert forall i | 0 <= i < |after| :: after[i].commentId == rs[i].commentId;
    assert forall x | x in after :: Intact(db, x) by {
      forall x | x in after ensures Intact(db, x) {
        var i :| 0 <= i < |after| && after[i] == x;
        assert rs[i] in rs;
      }
    }
    assert rs[0] in rs;
    assert after[1..] == ResolveRows(rs[1..], r.id, resolverId);
    UniqueKeysTail(rs, ReportKey);
    if rs[0].id == r.id {
      forall x | x in rs[1..] ensures x.id != r.id {
        var k :| 0 <= k < |rs[1..]| && rs[1..][k] == x;
        assert ReportKey(rs[0]) != ReportKey(rs[k + 1]);
      }
      assert r == rs[0];
      assert ResolveRows(rs[1..], r.id, resolverId) == rs[1..];
    } else {
      assert r in rs[1..];
      AdmittedAfterResolve(db, user, communityId, rs[1..], r, resolverId);
    }
  }

  /** Resolving one report the viewer can see in the queue lowers the count by one. */
  lemma ResolveDecrementsCount(db: Db, user: LocalUserView, communityId: Option<CommunityId>, r: CommentReport, resolverId: PersonId)
    requires Valid(db)
    requires r in db.reports && Admits(db, user, QueueOptions(communityId), r)
    ensures GetReportCount(Resolve(db, r.id, resolverId), user.personId, user.admin, communityId)
         == GetReportCount(db, user.personId, user.admin, communityId) - 1
  {
    var after := Resolve(db, r.id, resolverId);
    ResolveKeepsValid(db, r.id, resolverId);
    CountIsAdmitted(db, user, communityId);
    CountIsAdmitted(after, user, communityId);
    AdmittedAfterResolve(db, user, communityId, db.reports, r, resolverId);
    AdmittedIgnoresReportTable(db, after, user, communityId, after.reports);
  }

  /** After a report is resolved the unresolved-only list no longer holds it, on any page. */
  lemma ResolvedLeavesQueue(db: Db, reportId: CommentReportId, resolverId: PersonId, user: LocalUserView,
                            options: CommentReportQuery, limit: nat, offset: nat, now: Timestamp)
    requires Keyed(db) && options.unresolvedOnly
    ensures forall v | v in List(Resolve(db, reportId, resolverId), user, options, limit, offset, now) ::
      v.commentReport.id != reportId
  {
    var after := Resolve(db, reportId, resolverId);
    ResolveKeepsValid(db, reportId, resolverId);
    ListSound(after, user, options, limit, offset, now);
    forall v | v in List(after, user, options, limit, offset, now) ensures v.commentReport.id != reportId {
      var i :| 0 <= i < |after.reports| && after.reports[i] == v.commentReport;
    }
  }

  /** Reading a report after resolving it shows it resolved, with the resolver joined in. */
  lemma ReadAfterResolve(db: Db, r: CommentReport, resolverId: PersonId, myPersonId: PersonId, now: Timestamp)
    requires Valid(db) && r in db.reports && resolverId in db.persons
    ensures var read := Read(Resolve(db, r.id, resolverId), r.id, myPersonId, now);
      && read.Ok?
      && read.value.commentReport == r.(resolved := true, resolverId := Some(resolverId))
      && read.value.resolver == Some(db.persons[resolverId])
  {
    var after := Resolve(db, r.id, resolverId);
    ResolveKeepsValid(db, r.id, resolverId);
    ReadFindsReport(after, r.id, myPersonId, now);
    var i :| 0 <= i < |db.reports| && db.reports[i] == r;
    var resolved := r.(resolved := true, resolverId := Some(resolverId));
    assert after.reports[i] == resolved;
    FindByKeyUnique(after.reports, ReportKey, resolved);
  }
}
