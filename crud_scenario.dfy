/**
  The store of the repository's own create/read/update scenario for comment
  reports, and what the queries return on it: timmy moderates the community
  and wrote the comment; sara and then jessica report it; timmy resolves
  jessica's report.
 */
module CrudScenario {
  import opened SqlNull
  import opened Tables
  import opened ViewComposer
  import opened ReportQueries
  import opened ReportCount

  const timmy := Person(1, "timmy_crv")
  const sara := Person(2, "sara_crv")
  const jessica := Person(3, "jessica_crv")
  const community := Community(10, "test community crv", "nada")
  const post := Post(20, "A test post crv", 1, 10)
  const comment := Comment(30, 1, 20, "A test comment 32")
  const counts := CommentAggregates(30, 0, 0, 0, 0)

  /** sara reports first, so her report is the older one. */
  const saraReport := CommentReport(1, 2, 30, "this was it at time of creation", "from sara", false, None, 100, None)
  const jessicaReport := CommentReport(2, 3, 30, "this was it at time of creation", "from jessica", false, None, 200, None)

  /** timmy is a local user, not an admin. */
  const timmyView := LocalUserView(1, false)

  /** The store after the setup; timmy's community_actions row comes from joining as moderator. */
  const db := Db(
    [saraReport, jessicaReport],
    map[30 := comment],
    map[20 := post],
    map[10 := community],
    map[1 := timmy, 2 := sara, 3 := jessica],
    map[30 := counts],
    [LocalUser(100, 1, false)],
    [],
    [],
    [CommunityActions(1, 10, NotSubscribed, Some(50), None, None)])

  /** The view the scenario expects for a report on timmy's comment, read by timmy. */
  function Expected(report: CommentReport, creator: Person): CommentReportView
  {
    CommentReportView(report, comment, post, community, creator, timmy, counts,
      false, true, false, false, NotSubscribed, false, None, None)
  }

  lemma SetupValid()
    ensures Valid(db)
  {
    assert forall r | r in db.reports :: r == saraReport || r == jessicaReport;
  }

  /** timmy's joined rows, before anything is resolved. */
  lemma JoinsBefore()
    ensures Intact(db, saraReport) && Intact(db, jessicaReport)
    ensures AllJoins(db, 1) == [JoinReport(db, 1, saraReport).value, JoinReport(db, 1, jessicaReport).value]
  {
    assert Intact(db, saraReport) && Intact(db, jessicaReport);
    assert db.reports[1..] == [jessicaReport] && db.reports[1..][1..] == [];
    assert JoinAll(db, 1, [jessicaReport]) == [JoinReport(db, 1, jessicaReport).value];
  }

  /** Ordering two rows whose keys differ. */
  lemma SortTwo(o: Order, x: JoinedRow, y: JoinedRow)
    requires SortKey(o, y) < SortKey(o, x)
    ensures SortRows(o, [x, y]) == [y, x]
  {
    assert [x, y][1..] == [y] && [y][1..] == [];
    assert SortRows(o, [y]) == [y];
  }

  /** timmy moderates the community, so the moderator gate keeps both rows. */
  lemma WhereBefore()
    ensures Where(AllJoins(db, 1), [ViewerIsModerator])
         == [JoinReport(db, 1, saraReport).value, JoinReport(db, 1, jessicaReport).value]
  {
    JoinsBefore();
    var moderatorRow := db.communityActions[0];
    var js := JoinReport(db, 1, saraReport).value;
    var jj := JoinReport(db, 1, jessicaReport).value;
    assert js.myCommunityActions == Some(moderatorRow) && jj.myCommunityActions == Some(moderatorRow);
    HoldsOne(ViewerIsModerator, js);
    HoldsOne(ViewerIsModerator, jj);
    assert [js, jj][1..] == [jj] && [jj][1..] == [];
    assert Where([jj], [ViewerIsModerator]) == [jj] + Where([], [ViewerIsModerator]) == [jj];
    assert Where([js, jj], [ViewerIsModerator]) == [js] + Where([jj], [ViewerIsModerator]);
  }

  /** The default query keeps both rows and puts jessica's, the newer, first. */
  lemma ExecuteBefore(limit: nat)
    requires limit >= 2
    ensures Execute(ListQuery(CommentReportQuery(None, None, false), false, limit, 0), AllJoins(db, 1))
         == [JoinReport(db, 1, jessicaReport).value, JoinReport(db, 1, saraReport).value]
  {
    JoinsBefore();
    WhereBefore();
    var js := JoinReport(db, 1, saraReport).value;
    var jj := JoinReport(db, 1, jessicaReport).value;
    assert ListConds(CommentReportQuery(None, None, false), false) == [ViewerIsModerator];
    SortTwo(PublishedDesc, js, jj);
  }

  /** The default list: both reports, newest (jessica's) first. */
  lemma ListBefore(limit: nat, now: Timestamp)
    requires limit >= 2
    ensures List(db, timmyView, CommentReportQuery(None, None, false), limit, 0, now)
         == [Expected(jessicaReport, jessica), Expected(saraReport, sara)]
  {
    ExecuteBefore(limit);
    JoinsBefore();
    assert Select(JoinReport(db, 1, jessicaReport).value, now) == Expected(jessicaReport, jessica);
    assert Select(JoinReport(db, 1, saraReport).value, now) == Expected(saraReport, sara);
  }

  /** Both reports are in timmy's queue. */
  lemma CountBefore()
    ensures GetReportCount(db, 1, false, None) == 2
  {
    SetupValid();
    assert db.communityActions[0] in db.communityActions;
    assert Admits(db, timmyView, QueueOptions(None), saraReport);
    assert Admits(db, timmyView, QueueOptions(None), jessicaReport);
    assert db.reports[1..] == [jessicaReport] && db.reports[1..][1..] == [];
    assert Admitted(db, timmyView, None, [jessicaReport]) == 1;
    assert Admitted(db, timmyView, None, db.reports) == 2;
    CountIsAdmitted(db, timmyView, None);
  }

  /** The store once timmy has resolved jessica's report. */
  const resolvedJessicaReport := jessicaReport.(resolved := true, resolverId := Some(1))

  lemma JoinsAfter()
    ensures Resolve(db, 2, 1).reports == [saraReport, resolvedJessicaReport]
    ensures Intact(Resolve(db, 2, 1), saraReport) && Intact(Resolve(db, 2, 1), resolvedJessicaReport)
    ensures AllJoins(Resolve(db, 2, 1), 1)
         == [JoinReport(Resolve(db, 2, 1), 1, saraReport).value, JoinReport(Resolve(db, 2, 1), 1, resolvedJessicaReport).value]
  {
    var after := Resolve(db, 2, 1);
    assert after.reports == [saraReport, resolvedJessicaReport];
    assert after.reports[1..] == [resolvedJessicaReport] && after.reports[1..][1..] == [];
    assert JoinAll(after, 1, [resolvedJessicaReport]) == [JoinReport(after, 1, resolvedJessicaReport).value];
  }

  /** The unresolved queue drops jessica's resolved report and keeps sara's. */
  lemma WhereAfter()
    ensures Where(AllJoins(Resolve(db, 2, 1), 1), [ReportUnresolved, ViewerIsModerator])
         == [JoinReport(Resolve(db, 2, 1), 1, saraReport).value]
  {
    JoinsAfter();
    var after := Resolve(db, 2, 1);
    var ks := JoinReport(after, 1, saraReport).value;
    var kj := JoinReport(after, 1, resolvedJessicaReport).value;
    var conds := [ReportUnresolved, ViewerIsModerator];
    assert ks.myCommunityActions == Some(after.communityActions[0]);
    assert CondHolds(conds[0], ks) && CondHolds(conds[1], ks);
    assert !CondHolds(conds[0], kj);
    assert [ks, kj][1..] == [kj] && [kj][1..] == [];
    assert Where([kj], conds) == [] + Where([], conds) == [];
    assert Where([ks, kj], conds) == [ks] + Where([kj], conds);
  }

  /** The unresolved-only query on the resolved store yields sara's row alone. */
  lemma ExecuteAfter(limit: nat)
    requires limit >= 1
    ensures Execute(ListQuery(CommentReportQuery(None, None, true), false, limit, 0), AllJoins(Resolve(db, 2, 1), 1))
         == [JoinReport(Resolve(db, 2, 1), 1, saraReport).value]
  {
    JoinsAfter();
    WhereAfter();
    var ks := JoinReport(Resolve(db, 2, 1), 1, saraReport).value;
    assert ListConds(CommentReportQuery(None, None, true), false) == [ReportUnresolved, ViewerIsModerator];
    assert SortRows(PublishedAsc, [ks]) == [ks];
  }

  /** After timmy resolves jessica's report, the unresolved queue holds sara's alone. */
  lemma ListAfter(limit: nat, now: Timestamp)
    requires limit >= 1
    ensures List(Resolve(db, 2, 1), timmyView, CommentReportQuery(None, None, true), limit, 0, now)
         == [Expected(saraReport, sara)]
  {
    ExecuteAfter(limit);
    JoinsAfter();
    assert Select(JoinReport(Resolve(db, 2, 1), 1, saraReport).value, now) == Expected(saraReport, sara);
  }

  /** Resolving a report in timmy's queue leaves one. */
  lemma CountAfter()
    ensures GetReportCount(Resolve(db, 2, 1), 1, false, None) == 1
  {
    SetupValid();
    assert db.communityActions[0] in db.communityActions;
    CountBefore();
    ResolveDecrementsCount(db, timmyView, None, jessicaReport, 1);
  }

  /** timmy reads jessica's report: moderator, not admin, nothing blocked, saved or voted, no resolver. */
  lemma ReadBefore(now: Timestamp)
    ensures Read(db, 2, 1, now) == Ok(Expected(jessicaReport, jessica))
  {
    SetupValid();
    ReadFindsReport(db, 2, 1, now);
    FindByKeyUnique(db.reports, ReportKey, jessicaReport);
    assert Select(JoinReport(db, 1, jessicaReport).value, now) == Expected(jessicaReport, jessica);
  }

  /** Read again after resolving: resolved, and the resolver is timmy. */
  lemma ReadAfter(now: Timestamp)
    ensures Read(Resolve(db, 2, 1), 2, 1, now)
         == Ok(Expected(resolvedJessicaReport, jessica).(resolver := Some(timmy)))
  {
    var after := Resolve(db, 2, 1);
    SetupValid();
    ResolveKeepsValid(db, 2, 1);
    JoinsAfter();
    ReadFindsReport(after, 2, 1, now);
    FindByKeyUnique(after.reports, ReportKey, resolvedJessicaReport);
    assert Select(JoinReport(after, 1, resolvedJessicaReport).value, now)
        == Expected(resolvedJessicaReport, jessica).(resolver := Some(timmy));
  }

  /**
    Reading jessica's report, listing timmy's reports newest first, counting,
    resolving jessica's report and then reading, listing the unresolved queue
    and counting again, for any page size of at least two.
   */
  lemma CrudScenario(limit: nat, now: Timestamp)
    requires limit >= 2
    ensures Read(db, 2, 1, now) == Ok(Expected(jessicaReport, jessica))
    ensures List(db, timmyView, CommentReportQuery(None, None, false), limit, 0, now)
         == [Expected(jessicaReport, jessica), Expected(saraReport, sara)]
    ensures GetReportCount(db, 1, false, None) == 2
    ensures Read(Resolve(db, 2, 1), 2, 1, now)
         == Ok(Expected(resolvedJessicaReport, jessica).(resolver := Some(timmy)))
    ensures List(Resolve(db, 2, 1), timmyView, CommentReportQuery(None, None, true), limit, 0, now)
         == [Expected(saraReport, sara)]
    ensures GetReportCount(Resolve(db, 2, 1), 1, false, None) == 1
  {
    ReadBefore(now);
    ListBefore(limit, now);
    CountBefore();
    ReadAfter(now);
    ListAfter(limit, now);
    CountAfter();
  }
}
