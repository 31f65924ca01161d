# Comment-report read model

This project models Lemmy's comment-report read model (`crates/db_views/src/comment_report_view.rs`)
in Dafny. Moderators and admins use it to review reports filed against comments.
It covers these parts:

- the joined view of one report for one viewer (`all_joins`), with its derived flags:
  - whether the comment's author is banned from the community, is a moderator of it, or is an admin;
  - whether the viewer blocked the author, saved the comment, or voted on it;
  - the viewer's subscription to the community;
  - the person who resolved the report;
- the point lookup `read`;
- the filtered, ordered and paged `list`;
- the moderation-queue count `get_report_count`.

The database is held in memory (`Tables`):

- Entity tables (comment, post, community, person, comment_aggregates) are maps from primary key to row.
- comment_report, local_user and the three `*_actions` tables are sequences of rows.
- Their primary keys and unique constraints are the `Keyed` predicate.
- The existence of the rows that the inner joins need is `Intact`.

SQL NULL is explicit (`SqlNull`):

- a left join yields `Option` of a row, the first row whose key matches;
- `IS NOT NULL`, `>` on a nullable column, three-valued `OR` and `COALESCE` are written out.

A query is a value:

- a list of WHERE conditions, an optional ORDER BY, and LIMIT/OFFSET;
- `Execute` applies all of WHERE, then the ordering, then the page.

So the moderator gate, which the source adds after `.limit().offset()`, still filters before the page is cut.
`BuildListQuery` builds the query by the same sequence of reassignments as the source.

The count keeps the source's own form:

- narrower inner joins (report, comment, post);
- for a non-admin, an INNER join with the viewer's moderator rows, where every matching pair yields one row.

It is proved equal to the length of the unpaginated unresolved-only list, which instead uses a LEFT join tested for NULL.

`CrudScenario` replays the repository's create/read/update test on a concrete store, from the two reports to the final count.

## Model

| member | source | states |
|---|---|---|
| SqlNull.FindByKey | crates/db_views/src/comment_report_view.rs:57-87 | A left join's lookup returns a row of the table that has the key, and returns NULL exactly when no row has the key |
| SqlNull.FindByKeyUnique | crates/db_views/src/comment_report_view.rs:57-87 | Under a unique key, looking up the key of a row finds that very row |
| ViewComposer.JoinReport | crates/db_views/src/comment_report_view.rs:47-87 | The joins yield a row exactly when comment, post, community, reporter, comment creator and aggregates all exist. The row carries the report; the comment on `comment_id`; that comment's post and the post's community; the reporter on `comment_report.creator_id`; the comment creator on `comment.creator_id`; and the aggregates on `comment_id` |
| ViewComposer.JoinAllMembers | crates/db_views/src/comment_report_view.rs:47-87 | Every intact report's joined row is in the joined table, and every row in it is the join of an intact report of the table |
| ViewComposer.JoinAllReports | crates/db_views/src/comment_report_view.rs:47-56 | The inner joins keep one joined row per intact report row, in table order, and drop the rows with a dangling foreign key. Under the report key that is exactly one row per intact report |
| ViewComposer.ViewOf | crates/db_views/src/comment_report_view.rs:88-95 | The view of an intact report carries the report, its comment, the comment's post and community, the reporter, the comment creator and the comment's aggregates |
| ViewComposer.Select | crates/db_views/src/comment_report_view.rs:88-119 | The select list. Its derived fields have no contract of their own: their meaning is stated by CreatorBannedMeaning, CreatorIsModeratorMeaning, CreatorIsAdminMeaning, ViewerFieldsMeaning and ResolverMeaning |
| ViewComposer.CreatorBannedMeaning | crates/db_views/src/comment_report_view.rs:96-108 | `creator_banned_from_community` holds iff the creator's community_actions row for the post's community has a ban, or a ban expiry later than `now`. It is false when no such row exists |
| ViewComposer.CreatorIsModeratorMeaning | crates/db_views/src/comment_report_view.rs:109-112 | `creator_is_moderator` holds iff the comment creator has a community_actions row for the post's community with `became_moderator` set |
| ViewComposer.CreatorIsAdminMeaning | crates/db_views/src/comment_report_view.rs:71-77 | `creator_is_admin` holds iff some local_user row of the comment creator has `admin = true` |
| ViewComposer.ViewerFieldsMeaning | crates/db_views/src/comment_report_view.rs:114-117 | `creator_blocked`, `saved`, `my_vote` and `subscribed` are read from the viewer's own rows: blocked and saved are presence tests, the vote is the row's score. Without a row they are false, false, NULL and NotSubscribed |
| ViewComposer.ResolverMeaning | crates/db_views/src/comment_report_view.rs:62-65 | `resolver` is NULL when `resolver_id` is NULL. Otherwise it is the person whose id is `resolver_id`, whenever that person exists |
| ViewComposer.ViewerDoesNotFilter | crates/db_views/src/comment_report_view.rs:57-87 | The viewer only affects the viewer-scoped fields. Two viewers get the same row with the same report, flags and resolver |
| ReportQueries.WhereMembers | crates/db_views/src/comment_report_view.rs:136-159 | WHERE keeps exactly the rows that meet every condition |
| ReportQueries.SortRows | crates/db_views/src/comment_report_view.rs:148-150 | ORDER BY published returns a permutation of its input, sorted on the key |
| ReportQueries.Page | crates/db_views/src/comment_report_view.rs:155 | OFFSET then LIMIT: the page holds only rows of its input, at most `limit` of them (PageIsSlice: it is the clamped [offset, offset+limit) slice) |
| ReportQueries.Execute | crates/db_views/src/comment_report_view.rs:136-159 | A query runs all of its WHERE conditions before the order and the page: every result row is an input row that meets every condition, and there are at most `limit` of them |
| ReportQueries.Read | crates/db_views/src/comment_report_view.rs:122-129 | `find(report_id)` then `.first()`: a found view is of the report with the requested id, whoever the viewer is. ReadFindsReport states the NotFound case |
| ReportQueries.List | crates/db_views/src/comment_report_view.rs:131-163 | The list holds at most `limit` views. ListSound, ListAllMembers, ListIsPage and ListOrdered state which reports, on which page and in which order |
| ReportQueries.ReadFindsReport | crates/db_views/src/comment_report_view.rs:122-129 | Under the report key, `read` equals a direct lookup of the report by id: NotFound when there is no such report or its joins fail. Otherwise it is that report's view |
| ReportQueries.ReadIgnoresViewerRole | crates/db_views/src/comment_report_view.rs:122-129 | `read` applies no visibility filter: any two viewers either both find the report or both fail, and see the same report |
| ReportQueries.BuildListQuery | crates/db_views/src/comment_report_view.rs:133-160 | The reassignments build the list query: the filters in WHERE, the order chosen by `unresolved_only`, then limit, offset and the moderator gate |
| ReportQueries.ModeratorGateMeaning | crates/db_views/src/comment_report_view.rs:157-160 | The gate, a left join tested for NULL, holds iff the viewer moderates the post's community |
| ReportQueries.ListCondsMeaning | crates/db_views/src/comment_report_view.rs:135-160 | A joined row passes the list's WHERE iff it meets each supplied filter. With `unresolved_only` it must be unresolved. Unless the viewer is an admin, it must be in a community the viewer moderates |
| ReportQueries.ListSound | crates/db_views/src/comment_report_view.rs:131-163 | Every listed view is the view of a report in the table that the filters, the unresolved switch and the moderator gate admit |
| ReportQueries.ListAllMembers | crates/db_views/src/comment_report_view.rs:131-160 | Without a page, an intact report's view is in the list iff the filters and the gate admit it. So an admin sees every report that matches the filters |
| ReportQueries.ListIsPage | crates/db_views/src/comment_report_view.rs:153-160 | The list is the [offset, offset+limit) slice of the filtered, ordered rows, clamped to their length. Its length is at most `limit` |
| ReportQueries.ListOrdered | crates/db_views/src/comment_report_view.rs:143-151 | With `unresolved_only` the list is in ascending `published` order (oldest first). Otherwise it is in descending order |
| ReportCount.ModeratorRowsCount | crates/db_views/src/comment_report_view.rs:202-211 | Under the (person, community) key, the inner join's ON clause matches one row when the viewer moderates the community, and none otherwise |
| ReportCount.CountOfOne | crates/db_views/src/comment_report_view.rs:191-220 | One intact report adds one to the count iff it is unresolved, in the requested community, and (for a non-admin) in a community the viewer moderates |
| ReportCount.CountIsAdmitted | crates/db_views/src/comment_report_view.rs:181-221 | `get_report_count` equals the number of reports that the unresolved-only list, with no comment filter, admits for the same viewer and community |
| ReportCount.GetReportCount | crates/db_views/src/comment_report_view.rs:181-221 | The count query in the source's own form. Its meaning is stated by CountIsAdmitted and CountMatchesList |
| ReportCount.CountMatchesList | crates/db_views/src/comment_report_view.rs:181-221 | Under the keys and referential integrity, the count equals the length of the unpaginated unresolved-only list for the same viewer and community |
| ReportCount.Resolve | crates/db_views/src/comment_report_view.rs:497-510 | Resolving sets `resolved` and records the resolver on the report with the id. Every other report row and every other table is unchanged |
| ReportCount.ResolveKeepsValid | crates/db_views/src/comment_report_view.rs:498 | Resolving a report keeps the keys and the integrity of the store |
| ReportCount.ResolveDecrementsCount | crates/db_views/src/comment_report_view.rs:493-498 | Resolving one report that is in the viewer's queue lowers the count by exactly one |
| ReportCount.ResolvedLeavesQueue | crates/db_views/src/comment_report_view.rs:544-551 | After a report is resolved, no page of the unresolved-only list contains it |
| ReportCount.ReadAfterResolve | crates/db_views/src/comment_report_view.rs:498-540 | After resolving, `read` finds the report marked resolved, with the resolver's id and the resolver's person row |
| CrudScenario.ReadBefore | crates/db_views/src/comment_report_view.rs:355-452 | In the scenario, timmy reads jessica's report. The comment creator is a moderator and not an admin; nothing is blocked, saved or voted; there is no resolver; the viewer is NotSubscribed |
| CrudScenario.ListBefore | crates/db_views/src/comment_report_view.rs:479-490 | The default list holds both reports, jessica's (newer) first |
| CrudScenario.CountBefore | crates/db_views/src/comment_report_view.rs:493-495 | timmy's count is 2 |
| CrudScenario.ReadAfter | crates/db_views/src/comment_report_view.rs:497-540 | After timmy resolves jessica's report, reading it shows it resolved by timmy, with timmy as the resolver |
| CrudScenario.ListAfter | crates/db_views/src/comment_report_view.rs:543-551 | The unresolved-only list then holds sara's report alone |
| CrudScenario.CountAfter | crates/db_views/src/comment_report_view.rs:554-556 | timmy's count is then 1 |
| CrudScenario.CrudScenario | crates/db_views/src/comment_report_view.rs:272-565 | The whole scenario, for any page size of at least two |

## Left out

- `limit_and_offset` is not part of this model. The list takes the `(limit, offset)` pair it would produce as input, and its error path (an out-of-range page or limit) is not modelled. `CommentReportQuery` keeps `community_id`, `comment_id` and `unresolved_only`, but not `page` and `limit`.
- `CommunityFollower::select_subscribed_type` is not part of this model. `subscribed` is read directly from the viewer's community_actions row as an opaque three-state value, and is NotSubscribed without a row.
- `CommentReport::resolve` and `CommentReport::report` are not part of this model. `Resolve` sets `resolved` and `resolver_id` as the test expects. It does not set the `updated` timestamp, which the test copies from the read rather than predicting.
- ReportQueries.SortRows: ties on `published` are ordered by the insertion sort. SQL leaves their order unspecified, so only the non-strict order is stated (`ListOrdered`), and no property depends on the order of ties.
- The float ranks of comment_aggregates, and the person, community and post columns that no query reads, are carried only as small payloads (names and titles).
- Database errors other than NotFound (a lost connection, a failed pool checkout) are not modelled. Nor are the async connection plumbing (`DbPool`, `get_conn`, `.await`, `Queries::new`) and Diesel's boxing and alias machinery.
- The count's 64-bit integer is an unbounded `nat`; a table of more than 2^63 reports is outside the model.
- `crates/api/src/post/save.rs` is not part of this model: it only calls database operations whose code is not available.
