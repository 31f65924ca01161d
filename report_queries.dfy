/**
  The query engine over the shared join shape: a query is a value holding its
  WHERE conditions, ORDER BY and LIMIT/OFFSET, built step by step like the
  source builds its query, and executed the way SQL executes it: every
  condition first, then the ordering, then the page.  The point lookup `read`
  and the list are two queries over the same joined rows.
 */
module ReportQueries {
  import opened SqlNull
  import opened Tables
  import opened ViewComposer

  datatype Order = PublishedAsc | PublishedDesc

  /** The conditions the report queries put in their WHERE clause. */
  datatype Cond =
    | ReportIdIs(id: CommentReportId)             // comment_report.id = ?  (`find`)
    | PostCommunityIs(communityId: CommunityId)   // post.community_id = ?
    | ReportCommentIs(commentId: CommentId)       // comment_report.comment_id = ?
    | ReportUnresolved                             // comment_report.resolved = false
    | ViewerIsModerator                            // community_actions.became_moderator IS NOT NULL

  /** The shape of a query; the builder methods below mirror `.filter`, `.order_by`, `.limit`, `.offset`. */
  datatype Query = Query(conds: seq<Cond>, order: Option<Order>, limit: Option<nat>, offset: Option<nat>)
  {
    /** `.filter(c)`: one more condition, wherever in the chain it is called. */
    function Filter(c: Cond): Query { this.(conds := conds + [c]) }
    /** `.order_by(o)` replaces any earlier ordering. */
    function OrderBy(o: Order): Query { this.(order := Some(o)) }
    function Limit(n: nat): Query { this.(limit := Some(n)) }
    function Offset(n: nat): Query { this.(offset := Some(n)) }
  }

  datatype QueryError = NotFound

  function CondHolds(c: Cond, j: JoinedRow): bool
  {
    match c
    case ReportIdIs(id) => j.report.id == id
    case PostCommunityIs(id) => j.post.communityId == id
    case ReportCommentIs(id) => j.report.commentId == id
    case ReportUnresolved => !j.report.resolved
    case ViewerIsModerator => IsNotNull(Column(j.myCommunityActions, (a: CommunityActions) => a.becameModerator))
  }

  /** A row passes a WHERE clause when it meets every one of its conditions. */
  predicate Holds(conds: seq<Cond>, j: JoinedRow)
  {
    forall i | 0 <= i < |conds| :: CondHolds(conds[i], j)
  }

  /** The rows that pass the WHERE clause, in their original order. */
  function Where(rows: seq<JoinedRow>, conds: seq<Cond>): seq<JoinedRow>
  {
    if rows == [] then []
    else (if Holds(conds, rows[0]) then [rows[0]] else []) + Where(rows[1..], conds)
  }

  lemma {:induction false} WhereMembers(rows: seq<JoinedRow>, conds: seq<Cond>)
    ensures forall j :: j in Where(rows, conds) <==> j in rows && Holds(conds, j)
  {
    if rows != [] {
      WhereMembers(rows[1..], conds);
      assert forall j | j in rows :: j == rows[0] || j in rows[1..];
    }
  }

  lemma {:induction false} WhereAppend(a: seq<JoinedRow>, b: seq<JoinedRow>, conds: seq<Cond>)
    ensures Where(a + b, conds) == Where(a, conds) + Where(b, conds)
  {
    if a == [] {
      assert a + b == b;
    } else {
      var head := if Holds(conds, a[0]) then [a[0]] else [];
      assert (a + b)[0] == a[0];
      assert (a + b)[1..] == a[1..] + b;
      assert Where(a + b, conds) == head + Where(a[1..] + b, conds);
      WhereAppend(a[1..], b, conds);
      assert head + (Where(a[1..], conds) + Where(b, conds)) == (head + Where(a[1..], conds)) + Where(b, conds);
    }
  }

  lemma {:induction false} WhereNone(rows: seq<JoinedRow>, conds: seq<Cond>)
    requires forall j | j in rows :: !Holds(conds, j)
    ensures Where(rows, conds) == []
  {
    if rows != [] {
      assert rows[0] in rows;
      WhereNone(rows[1..], conds);
    }
  }

  lemma HoldsOne(c: Cond, j: JoinedRow)
    ensures Holds([c], j) == CondHolds(c, j)
  {
    assert [c][0] == c;
  }

  /** Sorting on published: descending order is ascending order of the negated time. */
  function SortKey(o: Order, j: JoinedRow): int
  {
    match o
    case PublishedAsc => j.report.published
    case PublishedDesc => -j.report.published
  }

  predicate Sorted(o: Order, rows: seq<JoinedRow>)
  {
    forall i, k | 0 <= i < k < |rows| :: SortKey(o, rows[i]) <= SortKey(o, rows[k])
  }

  /** Every key of `rest` is at least `k`, when `rest` holds `x` and the tail of a sorted `rows` headed by a key `k` below `x`'s. */
  lemma InsertBound(o: Order, rows: seq<JoinedRow>, x: JoinedRow, rest: seq<JoinedRow>)
    requires rows != [] && Sorted(o, rows)
    requires SortKey(o, rows[0]) < SortKey(o, x)
    requires multiset(rest) == multiset(rows[1..]) + multiset{x}
    ensures forall k | 0 <= k < |rest| :: SortKey(o, rows[0]) <= SortKey(o, rest[k])
  {
    forall k | 0 <= k < |rest| ensures SortKey(o, rows[0]) <= SortKey(o, rest[k]) {
      assert rest[k] in multiset(rest);
      if rest[k] != x {
        assert rest[k] in rows[1..];
        var i :| 0 <= i < |rows[1..]| && rows[1..][i] == rest[k];
        assert rows[i + 1] == rest[k];
      }
    }
  }

  lemma SortedCons(o: Order, y: JoinedRow, rest: seq<JoinedRow>)
    requires Sorted(o, rest)
    requires forall k | 0 <= k < |rest| :: SortKey(o, y) <= SortKey(o, rest[k])
    ensures Sorted(o, [y] + rest)
  {
    var r := [y] + rest;
    forall i, k | 0 <= i < k < |r| ensures SortKey(o, r[i]) <= SortKey(o, r[k]) {
      assert r[k] == rest[k - 1];
      if i > 0 {
        assert r[i] == rest[i - 1];
      }
    }
  }

  function InsertRow(o: Order, x: JoinedRow, rows: seq<JoinedRow>): (r: seq<JoinedRow>)
    requires Sorted(o, rows)
    ensures Sorted(o, r)
    ensures multiset(r) == multiset(rows) + multiset{x}
  {
    if rows == [] then [x]
    else if SortKey(o, x) <= SortKey(o, rows[0]) then
      SortedCons(o, x, rows);
      [x] + rows
    else
      var rest := InsertRow(o, x, rows[1..]);
      assert rows == [rows[0]] + rows[1..];
      InsertBound(o, rows, x, rest);
      SortedCons(o, rows[0], rest);
      [rows[0]] + rest
  }

  /** ORDER BY published: a sorted permutation of the rows (the order of ties is unspecified in SQL). */
  function SortRows(o: Order, rows: seq<JoinedRow>): (r: seq<JoinedRow>)
    ensures Sorted(o, r)
    ensures multiset(r) == multiset(rows)
  {
    if rows == [] then []
    else
      assert rows == [rows[0]] + rows[1..];
      InsertRow(o, rows[0], SortRows(o, rows[1..]))
  }

  function Ordered(rows: seq<JoinedRow>, order: Option<Order>): seq<JoinedRow>
  {
    match order
    case None => rows
    case Some(o) => SortRows(o, rows)
  }

  /** OFFSET then LIMIT: a run of consecutive rows, no longer than the limit. */
  function Page<T>(rows: seq<T>, limit: Option<nat>, offset: Option<nat>): (page: seq<T>)
    ensures limit.Some? ==> |page| <= limit.value
    ensures forall x | x in page :: x in rows
  {
    var start := match offset case None => 0 case Some(n) => if n < |rows| then n else |rows|;
    var rest := rows[start..];
    match limit
    case None => rest
    case Some(n) => if n < |rest| then rest[..n] else rest
  }

  /** Run a query: all of WHERE, then ORDER BY, then OFFSET/LIMIT, whatever order the builder calls came in. */
  function Execute(q: Query, rows: seq<JoinedRow>): (result: seq<JoinedRow>)
    ensures q.limit.Some? ==> |result| <= q.limit.value
    ensures forall j | j in result :: j in rows && Holds(q.conds, j)
  {
    var filtered := Where(rows, q.conds);
    var ordered := Ordered(filtered, q.order);
    WhereMembers(rows, q.conds);
    assert forall j | j in ordered :: j in filtered by {
      forall j | j in ordered ensures j in filtered {
        assert j in multiset(ordered);
      }
    }
    Page(ordered, q.limit, q.offset)
  }

  function SelectAll(rows: seq<JoinedRow>, now: Timestamp): (views: seq<CommentReportView>)
  {
    seq(|rows|, i requires 0 <= i < |rows| => Select(rows[i], now))
  }

  // ---------------------------------------------------------------------------
  // Point lookup

  /** `read`: `find(report_id)`, the joins, and the first row; no visibility condition at all. */
  function Read(db: Db, reportId: CommentReportId, myPersonId: PersonId, now: Timestamp)
    : (result: Result<CommentReportView, QueryError>)
    ensures result.Ok? ==> result.value.commentReport.id == reportId
  {
    var rows := Execute(Query([ReportIdIs(reportId)], None, Some(1), None), AllJoins(db, myPersonId));
    if rows == [] then Err(NotFound)
    else
      assert rows[0] in rows;
      HoldsOne(ReportIdIs(reportId), rows[0]);
      Ok(Select(rows[0], now))
  }

  /** Reference lookup: the report with this primary key, composed if its joins succeed. */
  function ReadByKey(db: Db, reportId: CommentReportId, myPersonId: PersonId, now: Timestamp)
    : Result<CommentReportView, QueryError>
  {
    match FindByKey(db.reports, ReportKey, reportId)
    case None => Err(NotFound)
    case Some(r) => if Intact(db, r) then Ok(ViewOf(db, myPersonId, r, now)) else Err(NotFound)
  }

  lemma {:induction false} WhereIdOfJoins(db: Db, me: PersonId, rs: seq<CommentReport>, reportId: CommentReportId)
    requires UniqueKeys(rs, ReportKey)
    ensures Where(JoinAll(db, me, rs), [ReportIdIs(reportId)]) ==
      match FindByKey(rs, ReportKey, reportId)
      case None => []
      case Some(r) => if Intact(db, r) then [JoinReport(db, me, r).value] else []
  {
    if rs != [] {
      var head := match JoinReport(db, me, rs[0]) case None => [] case Some(j) => [j];
      WhereAppend(head, JoinAll(db, me, rs[1..]), [ReportIdIs(reportId)]);
      UniqueKeysTail(rs, ReportKey);
      if head != [] {
        HoldsOne(ReportIdIs(reportId), head[0]);
      }
      if rs[0].id == reportId {
        var tail := Where(JoinAll(db, me, rs[1..]), [ReportIdIs(reportId)]);
        forall r | r in rs[1..] ensures r.id != reportId {
          var k :| 0 <= k < |rs[1..]| && rs[1..][k] == r;
          assert ReportKey(rs[0]) != ReportKey(rs[k + 1]);
        }
        JoinAllMembers(db, me, rs[1..]);
        forall j | j in JoinAll(db, me, rs[1..]) ensures !Holds([ReportIdIs(reportId)], j) {
          HoldsOne(ReportIdIs(reportId), j);
        }
        WhereNone(JoinAll(db, me, rs[1..]), [ReportIdIs(reportId)]);
      } else {
        WhereIdOfJoins(db, me, rs[1..], reportId);
      }
    }
  }

  /** `read` finds the report whose id is requested, or fails with NotFound when there is none. */
  lemma ReadFindsReport(db: Db, reportId: CommentReportId, myPersonId: PersonId, now: Timestamp)
    requires Keyed(db)
    ensures Read(db, reportId, myPersonId, now) == ReadByKey(db, reportId, myPersonId, now)
    ensures Read(db, reportId, myPersonId, now).Ok? ==>
      Read(db, reportId, myPersonId, now).value.commentReport.id == reportId
  {
    WhereIdOfJoins(db, myPersonId, db.reports, reportId);
  }

  /** `read` applies no moderator or admin filter: every viewer finds the same report. */
  lemma ReadIgnoresViewerRole(db: Db, reportId: CommentReportId, me: PersonId, other: PersonId, now: Timestamp)
    requires Keyed(db)
    ensures Read(db, reportId, me, now).Ok? == Read(db, reportId, other, now).Ok?
    ensures Read(db, reportId, me, now).Ok? ==>
      && Read(db, reportId, me, now).value.commentReport == Read(db, reportId, other, now).value.commentReport
      && Read(db, reportId, me, now).value.creatorIsModerator == Read(db, reportId, other, now).value.creatorIsModerator
  {
    ReadFindsReport(db, reportId, me, now);
    ReadFindsReport(db, reportId, other, now);
  }

  // ---------------------------------------------------------------------------
  // List

  datatype CommentReportQuery = CommentReportQuery(
    communityId: Option<CommunityId>, commentId: Option<CommentId>, unresolvedOnly: bool)

  /** The viewer: their person id and their admin flag. */
  datatype LocalUserView = LocalUserView(personId: PersonId, admin: bool)

  /** The WHERE clause the list ends up with. */
  function ListConds(options: CommentReportQuery, admin: bool): seq<Cond>
  {
    (match options.communityId case None => [] case Some(c) => [PostCommunityIs(c)])
    + (match options.commentId case None => [] case Some(c) => [ReportCommentIs(c)])
    + (if options.unresolvedOnly then [ReportUnresolved] else [])
    + (if admin then [] else [ViewerIsModerator])
  }

  /** Oldest first (FIFO) for the unresolved queue, newest first otherwise. */
  function ListOrder(options: CommentReportQuery): Order
  {
    if options.unresolvedOnly then PublishedAsc else PublishedDesc
  }

  function ListQuery(options: CommentReportQuery, admin: bool, limit: nat, offset: nat): Query
  {
    Query(ListConds(options, admin), Some(ListOrder(options)), Some(limit), Some(offset))
  }

  /** The list query built the way the source builds it, one reassignment at a time. */
  method BuildListQuery(options: CommentReportQuery, admin: bool, limit: nat, offset: nat)
    returns (query: Query)
    ensures query == ListQuery(options, admin, limit, offset)
  {
    query := Query([], None, None, None);
    if options.communityId.Some? {
      query := query.Filter(PostCommunityIs(options.communityId.value));
    }
    if options.commentId.Some? {
      query := query.Filter(ReportCommentIs(options.commentId.value));
    }
    if options.unresolvedOnly {
      query := query.Filter(ReportUnresolved).OrderBy(PublishedAsc);
    } else {
      query := query.OrderBy(PublishedDesc);
    }
    query := query.Limit(limit).Offset(offset);
    if !admin {
      query := query.Filter(ViewerIsModerator);
    }
    assert query.conds == ListConds(options, admin);
  }

  /** `CommentReportQuery::list` with the (limit, offset) pair already worked out. */
  function List(db: Db, user: LocalUserView, options: CommentReportQuery, limit: nat, offset: nat, now: Timestamp)
    : (views: seq<CommentReportView>)
    ensures |views| <= limit
  {
    SelectAll(Execute(ListQuery(options, user.admin, limit, offset), AllJoins(db, user.personId)), now)
  }

  /** The same list without LIMIT/OFFSET. */
  function ListAll(db: Db, user: LocalUserView, options: CommentReportQuery, now: Timestamp)
    : seq<CommentReportView>
  {
    SelectAll(SortRows(ListOrder(options), Where(AllJoins(db, user.personId), ListConds(options, user.admin))), now)
  }

  /** What the list admits, read straight off the tables. */
  ghost predicate Admits(db: Db, user: LocalUserView, options: CommentReportQuery, r: CommentReport)
    requires Intact(db, r)
  {
    var post := PostOf(db, r);
    && (options.communityId.Some? ==> post.communityId == options.communityId.value)
    && (options.commentId.Some? ==> r.commentId == options.commentId.value)
    && (options.unresolvedOnly ==> !r.resolved)
    && (user.admin || ModeratorOf(db, user.personId, post.communityId))
  }

  /** The moderator gate, a left join tested for NULL, means: the viewer moderates the post's community. */
  lemma ModeratorGateMeaning(db: Db, me: PersonId, r: CommentReport)
    requires Keyed(db) && Intact(db, r)
    ensures CondHolds(ViewerIsModerator, JoinReport(db, me, r).value) <==> ModeratorOf(db, me, PostOf(db, r).communityId)
  {
    if ModeratorOf(db, me, PostOf(db, r).communityId) {
      var a :| a in db.communityActions && a.personId == me
        && a.communityId == PostOf(db, r).communityId && a.becameModerator.Some?;
      FindByKeyUnique(db.communityActions, CommunityActionsKey, a);
    }
  }

  lemma ListCondsMeaning(db: Db, user: LocalUserView, options: CommentReportQuery, r: CommentReport)
    requires Keyed(db) && Intact(db, r)
    ensures Holds(ListConds(options, user.admin), JoinReport(db, user.personId, r).value) <==> Admits(db, user, options, r)
  {
    var j := JoinReport(db, user.personId, r).value;
    var conds := ListConds(options, user.admin);
    ModeratorGateMeaning(db, user.personId, r);
    if options.communityId.Some? {
      assert PostCommunityIs(options.communityId.value) in conds;
    }
    if options.commentId.Some? {
      assert ReportCommentIs(options.commentId.value) in conds;
    }
    if options.unresolvedOnly {
      assert ReportUnresolved in conds;
    }
    if !user.admin {
      assert ViewerIsModerator in conds;
    }
  }

  lemma SelectAllMembers(rows: seq<JoinedRow>, now: Timestamp)
    ensures forall v | v in SelectAll(rows, now) :: exists j :: j in rows && v == Select(j, now)
  {
    forall v | v in SelectAll(rows, now) ensures exists j :: j in rows && v == Select(j, now) {
      var i :| 0 <= i < |rows| && SelectAll(rows, now)[i] == v;
      assert rows[i] in rows;
    }
  }

  /** Every row of the page is the joined row of an admitted report in the table. */
  lemma PageRowsSound(db: Db, user: LocalUserView, options: CommentReportQuery, limit: nat, offset: nat)
    requires Keyed(db)
    ensures forall j | j in Execute(ListQuery(options, user.admin, limit, offset), AllJoins(db, user.personId)) ::
      && j.report in db.reports
      && Intact(db, j.report)
      && JoinReport(db, user.personId, j.report) == Some(j)
      && Admits(db, user, options, j.report)
  {
    var rows := AllJoins(db, user.personId);
    var filtered := Where(rows, ListConds(options, user.admin));
    var sorted := SortRows(ListOrder(options), filtered);
    var page := Execute(ListQuery(options, user.admin, limit, offset), rows);
    PageIsSlice(sorted, limit, offset);
    WhereMembers(rows, ListConds(options, user.admin));
    JoinAllMembers(db, user.personId, db.reports);
    forall j | j in page
      ensures && j.report in db.reports && Intact(db, j.report)
              && JoinReport(db, user.personId, j.report) == Some(j)
              && Admits(db, user, options, j.report)
    {
      assert j in multiset(sorted);
      ListCondsMeaning(db, user, options, j.report);
    }
  }

  /**
    Every listed view is the view of a report in the table that meets every
    supplied filter, is unresolved when `unresolved_only` is set, and lies in a
    community the viewer moderates unless the viewer is an admin.
   */
  lemma ListSound(db: Db, user: LocalUserView, options: CommentReportQuery, limit: nat, offset: nat, now: Timestamp)
    requires Keyed(db)
    ensures forall v | v in List(db, user, options, limit, offset, now) ::
      && v.commentReport in db.reports
      && Intact(db, v.commentReport)
      && v == ViewOf(db, user.personId, v.commentReport, now)
      && Admits(db, user, options, v.commentReport)
  {
    var page := Execute(ListQuery(options, user.admin, limit, offset), AllJoins(db, user.personId));
    PageRowsSound(db, user, options, limit, offset);
    SelectAllMembers(page, now);
  }

  /**
    Without a page, the list holds exactly the views of the intact reports
    that the filters, the unresolved switch and the moderator gate admit.
   */
  lemma ListAllMembers(db: Db, user: LocalUserView, options: CommentReportQuery, now: Timestamp)
    requires Keyed(db)
    ensures forall r | r in db.reports && Intact(db, r) ::
      ViewOf(db, user.personId, r, now) in ListAll(db, user, options, now) <==> Admits(db, user, options, r)
  {
    var rows := AllJoins(db, user.personId);
    var conds := ListConds(options, user.admin);
    var filtered := Where(rows, conds);
    var sorted := SortRows(ListOrder(options), filtered);
    WhereMembers(rows, conds);
    JoinAllMembers(db, user.personId, db.reports);
    SelectAllMembers(sorted, now);
    forall r | r in db.reports && Intact(db, r)
      ensures ViewOf(db, user.personId, r, now) in ListAll(db, user, options, now) <==> Admits(db, user, options, r)
    {
      var j := JoinReport(db, user.personId, r).value;
      ListCondsMeaning(db, user, options, r);
      if Admits(db, user, options, r) {
        assert j in multiset(sorted);
        var i :| 0 <= i < |sorted| && sorted[i] == j;
        assert ListAll(db, user, options, now)[i] == ViewOf(db, user.personId, r, now);
      }
      if ViewOf(db, user.personId, r, now) in ListAll(db, user, options, now) {
        var k :| k in sorted && ViewOf(db, user.personId, r, now) == Select(k, now);
        assert k in multiset(filtered);
        assert k.report == r;
      }
    }
  }

  lemma SortedSlice(o: Order, rows: seq<JoinedRow>, a: nat, b: nat)
    requires Sorted(o, rows) && a <= b <= |rows|
    ensures Sorted(o, rows[a..b])
  {
    forall i, k | 0 <= i < k < b - a ensures SortKey(o, rows[a..b][i]) <= SortKey(o, rows[a..b][k]) {
      assert rows[a..b][i] == rows[a + i] && rows[a..b][k] == rows[a + k];
    }
  }

  /**
    The list is the [offset, offset + limit) slice of the filtered, ordered
    rows: the moderator gate narrows the rows before the page is cut, so a page
    never holds fewer rows than `limit` while more visible rows remain.
   */
  lemma ListIsPage(db: Db, user: LocalUserView, options: CommentReportQuery, limit: nat, offset: nat, now: Timestamp)
    ensures var all := ListAll(db, user, options, now);
      var start := if offset < |all| then offset else |all|;
      var end := if offset + limit < |all| then offset + limit else |all|;
      List(db, user, options, limit, offset, now) == all[start..end]
    ensures |List(db, user, options, limit, offset, now)| <= limit
  {
    var sorted := SortRows(ListOrder(options), Where(AllJoins(db, user.personId), ListConds(options, user.admin)));
    PageIsSlice(sorted, limit, offset);
    var start := if offset < |sorted| then offset else |sorted|;
    var end := if offset + limit < |sorted| then offset + limit else |sorted|;
    SelectAllSlice(sorted, start, end, now);
  }

  lemma PageIsSlice<T>(rows: seq<T>, limit: nat, offset: nat)
    ensures var start := if offset < |rows| then offset else |rows|;
      var end := if offset + limit < |rows| then offset + limit else |rows|;
      Page(rows, Some(limit), Some(offset)) == rows[start..end]
  {
    var start := if offset < |rows| then offset else |rows|;
    var end := if offset + limit < |rows| then offset + limit else |rows|;
    var rest := rows[start..];
    if limit < |rest| {
      assert rest[..limit] == rows[start..end];
    } else {
      assert rest == rows[start..end];
    }
  }

  lemma SelectAllSlice(rows: seq<JoinedRow>, a: nat, b: nat, now: Timestamp)
    requires a <= b <= |rows|
    ensures SelectAll(rows[a..b], now) == SelectAll(rows, now)[a..b]
  {
  }

  /**
    With `unresolved_only` the list runs oldest first (FIFO); otherwise newest
    first.  Equal timestamps may come in either order.
   */
  lemma ListOrdered(db: Db, user: LocalUserView, options: CommentReportQuery, limit: nat, offset: nat, now: Timestamp)
    ensures var l := List(db, user, options, limit, offset, now);
      forall i, k | 0 <= i < k < |l| ::
        if options.unresolvedOnly then l[i].commentReport.published <= l[k].commentReport.published
        else l[i].commentReport.published >= l[k].commentReport.published
  {
    var o := ListOrder(options);
    var sorted := SortRows(o, Where(AllJoins(db, user.personId), ListConds(options, user.admin)));
    var page := Page(sorted, Some(limit), Some(offset));
    var start := if offset < |sorted| then offset else |sorted|;
    var end := if offset + limit < |sorted| then offset + limit else |sorted|;
    PageIsSlice(sorted, limit, offset);
    SortedSlice(o, sorted, start, end);
    var l := List(db, user, options, limit, offset, now);
    forall i, k | 0 <= i < k < |l|
      ensures if options.unresolvedOnly then l[i].commentReport.published <= l[k].commentReport.published
              else l[i].commentReport.published >= l[k].commentReport.published
    {
      assert SortKey(o, page[i]) <= SortKey(o, page[k]);
    }
  }
}
