# Pinnacle backend: verified model of the request handlers

A Dafny model of the core of the pinnacle backend, a Flask service over MySQL:

- the token service (`authentication/token_generator.py`): the payload of a login token, the extraction
  of the token from an `Authorization` header, and the `token_required`
  gate;
- account sign-in and sign-up (`routes/auth.py`) over the `users` table;
- review moderation (`routes/reviews.py`): validated submission as
  `pending`, role-based listing newest first with offset/limit pages, and an
  admin-only status change;
- visitor analytics (`routes/visitor.py`): the per-day deduplicating
  visitor counter over `visitor_logs` and `visitor_stats`, and the
  online-session heartbeat with its ten-minute purge over `online_users`;
- the read-only statistics endpoints (`routes/stats.py`).

Each module follows one source file: `Common` (shared `Option`, `Result`,
`Response` and a model of Python's `str.strip()`), `Tokens`, `Auth`,
`Reviews`, `Visitor` and `Stats`. A handler's reply is a `Response` (status,
`message`, and the `loginRequired` flag the token gate sets). A JSON body
that is missing, not JSON, or empty is `None`. An absent key is `None` too,
and so is a key whose value is JSON `null` (see "## Left out").
Handlers that only read are functions. Tables that a handler changes are fields of a
class:

- `Reviews.ReviewTable.rows` is a sequence of rows;
- `Auth.UserStore.users` is a map keyed by username;
- `Visitor.VisitorTables.logs` and `.stats` are sequences, with the unique
  keys as invariants;
- `Visitor.OnlineTable.sessions` is a map keyed by session id.

Their methods state the whole new state.

Password hashing, JWT decoding and the clock are parameters.
`hash` and `verify` are functions passed in. `decode` maps the token text to
`Decoded(claims) | Expired | Invalid | OtherError`. `now` is an integer number
of seconds. Visit dates are integer day numbers. The client's IP address and
the `User-Agent` header are plain arguments.

Some behaviours of the code are stated as properties of their own:

- For a day's first visitor, `total_visitors` stores the sum of
  `visitors_today` read *before* the visit, so a fresh row's `total_visitors`
  lags the number of logged visits by one (`Visitor.FreshDayTotalLagsByOne`).
- A status change is allowed from any status other than the requested one,
  so an approved review can be rejected (`Reviews.ApprovedCanBeRejected`).
- Sign-up stores whatever `role` the client sends, `admin` included. It
  defaults only an absent role to `user`.
- `get_online_users` counts stale sessions too. Only a heartbeat purges them
  (`Stats.CountIncludesStale`).

## Model

| member | source | states |
|---|---|---|
| Common.Strip | routes/reviews.py:28-29 | Python's `strip()`: the result is the infix of the input left after removing white space at both ends, and neither starts nor ends with white space |
| Common.StripEmptyIffBlank | routes/reviews.py:28-33 | a field strips to the empty string exactly when it is all white space |
| Tokens.GeneratePayload | authentication/token_generator.py:7-14 | the payload carries the given user id and role, `iat = now` and `exp - iat` equal to the lifetime in hours (2 by default) |
| Tokens.SpaceIndex | authentication/token_generator.py:32 | the position of the first space of the header; no space precedes it |
| Tokens.FirstField | authentication/token_generator.py:32 | the part of a string before its first space: a space-free prefix ending at a space or at the end |
| Tokens.ExtractToken | authentication/token_generator.py:32 | with a space, the header's second space-separated field (possibly empty); without one, the stripped header |
| Tokens.SpaceIndexAfter | authentication/token_generator.py:32 | in `a + b`, with no space in `a` and `b` starting with one, the first space is right after `a` |
| Tokens.ExtractTokenField | authentication/token_generator.py:32 | `scheme + " " + t + rest` yields exactly `t`: "Bearer X" gives X, "X " gives the empty string |
| Tokens.FirstFieldBeforeSpace | authentication/token_generator.py:32 | the first space-separated field of `t + rest`, where `t` has no space and `rest` is empty or starts with a space, is `t` |
| Tokens.TokenRequired | authentication/token_generator.py:19-59 | a missing or empty header gives 403 "Token is missing"; expired, invalid, other failures and a token without `user_id` give 403 with `loginRequired`; otherwise the token's user id and role (default `user`) pass to the handler |
| Tokens.IssuedTokenAdmits | authentication/token_generator.py:7-38 | a token issued for (id, role) and decoded to its own claims admits exactly (id, role) |
| Tokens.IssuedBareTokenAdmits | authentication/token_generator.py:7-38 | a header that is the issued token itself, with no surrounding white space, admits exactly (id, role) |
| Tokens.RoleDefaultsToUser | authentication/token_generator.py:38 | a token without a role claim is admitted as `user` |
| Auth.SignIn | routes/auth.py:23-64 | no body gives 400; a missing credential gives 400; success iff the user exists and the password verifies, returning the stored id and role and a 2-hour token for them; every other failure is the one 401 |
| Auth.SignInRejectsBeforeLookup | routes/auth.py:24-31 | a request without credentials gets the same 400 whatever the table and the verifier |
| Auth.SignInFailuresIndistinguishable | routes/auth.py:42-52 | an unknown username and a wrong password give the identical 401 reply |
| Auth.AddUser | routes/auth.py:104-116 | the new table has exactly one more row, under the new username and holding the hashed password and role; every other row is kept |
| Auth.SignUpThenSignIn | routes/auth.py:46-64 | after signing up, signing in with that password succeeds with the new id and role; any other password the verifier rejects gets 401 |
| Auth.UserStore.constructor | routes/auth.py:77-136 | an empty `users` table whose id counter starts at 1 |
| Auth.UserStore.SignUp | routes/auth.py:92-127 | no body gives 400 and a missing credential gives 400, both leaving the table as it was; an existing username gives 409, also leaving it as it was; otherwise one user is added with `hash(password)` and the role (default `user`), and ids stay unique |
| Reviews.ValidateReview | routes/reviews.py:23-47 | accepts exactly when the stripped name and review are non-empty and at most 255 and 1000 characters long and the rating is present and in 1..5; an accepted submission carries the stripped texts; every rejection is 400 |
| Reviews.BlankFieldRejected | routes/reviews.py:28-34 | an all-white-space name or review is rejected whatever the rest of the body |
| Reviews.RatingBounds | routes/reviews.py:42-47 | for valid texts, the body is accepted iff 1 <= rating <= 5, and any other rating gets the rating message |
| Reviews.ValidatedIsWellFormed | routes/reviews.py:33-47 | every accepted submission satisfies the rules a stored review obeys |
| Reviews.Approved | routes/reviews.py:129-135 | the filter keeps only approved rows, and only rows of the table |
| Reviews.ApprovedKeepsCounts | routes/reviews.py:129-135 | each approved row occurs in the filtered rows as often as in the table, and nothing else occurs there |
| Reviews.Visible | routes/reviews.py:121-135 | an admin sees the whole table; any other role sees the approved rows |
| Reviews.ConsNewestFirst | routes/reviews.py:125 | putting a row no older than the head in front keeps the rows newest first |
| Reviews.InsertByTime | routes/reviews.py:125 | inserting into a newest-first sequence keeps it newest first and adds exactly that row |
| Reviews.TailNewestFirst | routes/reviews.py:125 | dropping the newest row keeps the rest newest first |
| Reviews.SortNewestFirst | routes/reviews.py:125 | `ORDER BY timestamp DESC`: a permutation of the rows, newest first |
| Reviews.Page | routes/reviews.py:126 | `LIMIT/OFFSET`: the run of at most `limit` rows starting after `offset` rows; empty past the end |
| Reviews.ListingRole | routes/reviews.py:98-110 | no header means `guest`; a decoded token gives its role claim (default `guest`); an expired token gives 403 "Token has expired" and an invalid one 403 "Invalid token"; other decode failures give 500 |
| Reviews.ListPage | routes/reviews.py:117-137 | the page has at most `limit` rows, newest first; it is the right slice of the sorted visible rows; all its rows are in the table; for non-admins they are all approved; it is empty iff the offset is past the visible rows or the limit is 0 |
| Reviews.PageInRows | routes/reviews.py:121-137 | every listed row is a row of the table |
| Reviews.PageApproved | routes/reviews.py:128-135 | a non-admin's page holds only approved rows |
| Reviews.PageSlice | routes/reviews.py:126 | a non-empty page is exactly the slice after `offset` rows, holding `limit` rows or all that remain |
| Reviews.PageStaysSorted | routes/reviews.py:125-126 | a slice of a newest-first sequence is newest first |
| Reviews.PageSubMultiset | routes/reviews.py:126 | a page holds no row more often than the sequence it is cut from |
| Reviews.SubMultisetKeepsApproved | routes/reviews.py:129-135 | rows drawn from approved rows are approved |
| Reviews.VisibleSubMultiset | routes/reviews.py:121-135 | the visible rows are drawn from the table |
| Reviews.GetReviews | routes/reviews.py:98-145 | a token refusal is passed on; a negative offset or limit gives 500; otherwise the page for the caller's role is returned, using offset 0 and limit 5 when absent; an empty page gives 404 |
| Reviews.NonAdminSeesOnlyApproved | routes/reviews.py:98-143 | a guest, or a caller whose token carries no admin role, never sees a pending or rejected review |
| Reviews.AdminSeesEverything | routes/reviews.py:98-143 | a caller whose token decodes with the role claim `admin` (whatever else it carries), asking for a large enough page, gets every review of every status |
| Reviews.IssuedAdminTokenSeesEverything | routes/reviews.py:98-143 | an admin token as sign-in issues it, sent after a scheme, lists every review when the page is large enough |
| Reviews.ParseStatus | routes/reviews.py:177-181 | exactly `approved` and `rejected` are accepted, never `pending` |
| Reviews.FindReview | routes/reviews.py:190-194 | the first row with the id, or none when no row has it |
| Reviews.StatusUpdate | routes/reviews.py:170-207 | checked in order: a non-admin gets 403, a bad status 400, an unknown id 404; an unchanged status gets 200 with the table as it was; otherwise only that row's status and `updated_time` change, and the reply is 200 |
| Reviews.NonAdminRefusedRegardless | routes/reviews.py:170-174 | a non-admin gets the same 403 whether or not the review exists |
| Reviews.StatusUpdateIdempotent | routes/reviews.py:196-198 | repeating a successful change is answered "already" and leaves the table as the first change left it |
| Reviews.FindAfterUpdate | routes/reviews.py:201-204 | updating a row in place without touching its id keeps it the one found |
| Reviews.StatusUpdateNeverPending | routes/reviews.py:180-204 | no request moves a review back to `pending`, and rows other than the named one keep their status |
| Reviews.ApprovedCanBeRejected | routes/reviews.py:197-207 | an approved review can be rejected by an admin (the code does not restrict transitions to ones out of `pending`) |
| Reviews.NewReview | routes/reviews.py:56-60 | the inserted row carries the submission's name, review and rating, the given id, status `pending`, timestamp `now` and no `updated_time` |
| Reviews.AppendKeepsValid | routes/reviews.py:56-63 | appending a well-formed row that takes the next id keeps every stored row well formed, with ids below the counter and unique |
| Reviews.ReviewTable.constructor | routes/reviews.py:56-63 | an empty `user_reviews` table whose id counter starts at 1 |
| Reviews.ReviewTable.AddReview | routes/reviews.py:23-63 | an invalid submission gets its 400 and stores nothing; a valid one appends exactly one `pending` row holding the stripped texts and stamped `now`, and replies 201; stored rows stay well formed with unique ids |
| Reviews.ReviewTable.UpdateReviewStatus | routes/reviews.py:170-207 | the reply and the new table are exactly those of `StatusUpdate` on the old table, and the invariant is kept |
| Reviews.ReviewTable.UpdateReviewStatusRequest | routes/reviews.py:150-152 | a refusal by the token gate is returned with nothing changed; otherwise the handler runs with the admitted role |
| Visitor.FindDay | routes/visitor.py:47 | the first row dated `d`, or none when no row has that date |
| Visitor.VisitorsOn | routes/visitor.py:47-49 | a day without a row counts 0; a non-zero count is the `visitors_today` of a row of that date |
| Visitor.VisitorsOnRow | routes/visitor.py:47-49 | with one row per date, a day's count is the `visitors_today` of its row |
| Visitor.VisitorsBetween | routes/visitor.py:51-55 | a window containing no row's date sums to 0; a window containing every row's date sums to the whole table |
| Visitor.TotalVisitors | routes/visitor.py:57-58 | the sum is at least every row's `visitors_today`, and 0 when every row counts 0 |
| Visitor.RowWithinWindow | routes/visitor.py:47-52 | a row inside the date window counts toward the window sum, in particular yesterday's row toward the week |
| Visitor.WindowWidens | routes/visitor.py:51-55 | the month window, which starts earlier, sums at least as much as the week window |
| Visitor.WindowWithinTotal | routes/visitor.py:54-58 | no window sums more than the whole table |
| Visitor.AggregatesOrdered | routes/visitor.py:46-58 | the four values read before logging satisfy yesterday <= week <= month <= total |
| Visitor.SumVisitorsBetween | routes/visitor.py:51-55 | the loop computes `COALESCE(SUM(visitors_today), 0)` over the rows dated in the window |
| Visitor.SumAllVisitors | routes/visitor.py:57-58 | the loop computes the sum of `visitors_today` over the whole table |
| Visitor.EffectiveUserAgent | routes/visitor.py:26-31 | a body agent with a visible character is used, stripped; an absent or blank one falls back to the header, or to "Unknown" |
| Visitor.UpsertStats | routes/visitor.py:74-85 | given the four aggregates read from the old table, the upserted table is `AfterNewVisit` of the old one |
| Visitor.AfterNewVisit | routes/visitor.py:74-85 | a new day gets one appended row with today 1 and the total read; an existing row gets today and total each +1; both get yesterday, week and month overwritten by the values read; rows of other dates are kept |
| Visitor.FindDaySameDates | routes/visitor.py:78-83 | rows with the same dates are found at the same place |
| Visitor.FindDayAppended | routes/visitor.py:76-77 | a date not yet present is found at the row appended for it |
| Visitor.LogsOnAppend | routes/visitor.py:61-67 | logging a visit on a day adds one to that day's count and nothing to the others |
| Visitor.LogsOnAbsent | routes/visitor.py:61-67 | a day nothing was logged on counts zero |
| Visitor.NewVisitKeepsCounts | routes/visitor.py:61-85 | logging a new visit and applying the upsert keeps every row's `visitors_today` equal to the number of logged visits of its date, with one row per date |
| Visitor.AppendFresh | routes/visitor.py:61-71 | inserting an entry not yet logged keeps each (ip, user agent, date) logged at most once |
| Visitor.TotalIsCountSum | routes/visitor.py:57 | when the counts match the log, the summed `visitors_today` is the sum of the log counts of the rows' dates |
| Visitor.CountSumAppend | routes/visitor.py:61-67 | one more logged visit adds to the sum once for every row of its date |
| Visitor.FindDayPrefix | routes/visitor.py:47 | a date has a row iff it has one among the earlier rows or it is the last row's |
| Visitor.RowsOnUnique | routes/visitor.py:76-78 | with unique dates, a date has exactly one row or none |
| Visitor.CountSumEmpty | routes/visitor.py:57 | with nothing logged, the sum of log counts is zero |
| Visitor.CountSumIsLogCount | routes/visitor.py:57-67 | with unique dates and every logged day present, the sum of log counts is the number of log entries |
| Visitor.TotalMatchesLogCount | routes/visitor.py:57-85 | while the counts match the log, the summed `visitors_today` equals the number of logged visits |
| Visitor.FreshDayTotalLagsByOne | routes/visitor.py:57-58 | the first visit of a new day stores a `total_visitors` one less than the number of logged visits after it |
| Visitor.VisitorTables.constructor | routes/visitor.py:61-85 | empty `visitor_logs` and `visitor_stats`, which satisfy the invariant |
| Visitor.VisitorTables.TrackVisitor | routes/visitor.py:21-88 | no body gives 400 "Invalid input" and a bad date gives 400, neither changing anything; otherwise 200; a repeated (ip, agent, date) changes neither table; a new one is logged and upserted as `AfterNewVisit`; logs stay distinct and counts keep matching |
| Visitor.VisitorTables.RecordNewVisit | routes/visitor.py:46-85 | the aggregates are read first, then the entry is appended to the log and the stats become `AfterNewVisit` of the old ones; the invariant is kept |
| Visitor.Heartbeat | routes/visitor.py:132-136 | after the upsert the session exists with `last_active = now`; an existing session keeps its ip and a new one gets the caller's; all other sessions are kept |
| Visitor.OnlineTable.constructor | routes/visitor.py:132-139 | an empty `online_users` table |
| Visitor.OnlineTable.TrackOnline | routes/visitor.py:114-142 | a missing session id is answered 400 and a blank one 400, with nothing changed; otherwise the heartbeat is applied and exactly the sessions that are not stale remain, unchanged, and the reply is 200 |
| Visitor.HeartbeatThenPurge | routes/visitor.py:132-139 | after a heartbeat and the purge the session is present and active now with its original ip; nothing stale remains; other active sessions are kept and stale ones are gone |
| Stats.OnlineUsers | routes/stats.py:46-58 | `COUNT(*)` over `online_users`: the number of stored sessions, 0 exactly when none is stored |
| Stats.LatestStats | routes/stats.py:14-26 | the row with the greatest date, returned unchanged; 404 iff the table is empty |
| Stats.LatestIsTheMaximum | routes/stats.py:14-26 | with unique dates, the answer is the one row no other row postdates |
| Stats.CountIncludesStale | routes/stats.py:46-58 | the count does not purge: while a stale session is stored, the count exceeds the number of sessions that a purge at `now` keeps |
| Stats.CountDropsAtKnownHeartbeat | routes/stats.py:46-58 | while a stale session is stored, a heartbeat from a session already stored followed by its purge leaves fewer rows than the count reports (a heartbeat from a new session can add one back) |
| Stats.CountAfterPurge | routes/stats.py:46-58 | right after a purge, the count is the number of sessions active in the last ten minutes |

## Left out

- Flask and JSON plumbing is abstracted: requests arrive as parsed values and replies are `Response` values. The `userMessage` field and the JSON success payloads are dropped. So is the 201 message "User successfully registered": `Auth.UserStore.SignUp` returns the username and role.
- The database connection is left out. The `conn is None` branches, commit/close, and the `MySQLError`/`Exception` replies with status 500 are not modelled. `get_db_connection` is not defined in `db_config.py` and is not part of this model.
- On submission, the `IntegrityError` reply 409 "Duplicate entry detected" (routes/reviews.py:65-66) is not modelled: the model assumes `user_reviews` has no unique key besides `id`, so the insert never collides.
- Error messages that embed exception text are reduced to their fixed part. In the token gate, "An error occurred: ..." becomes "An error occurred".
- Argon2 hashing is left out: the randomised foreign library is replaced by the `hash` and `verify` parameters.
- HS256 signing and JWT expiry checking are left out. Decoding is the abstract `decode` parameter.
- `strptime` parsing of `visit_date` is left out. A missing or unparsable date is `None`, and a valid one is its day number. MySQL's `DATE_SUB` becomes subtraction of days.
- The wall clock is left out. `NOW()` and `CURRENT_TIMESTAMP` are the one `now` passed in, used both for the heartbeat and for the purge.
- Concurrency and transaction isolation are left out. Each request is one atomic step.
- Python coercions are left out:
  - `int()` of a string or float rating;
  - `.strip()` raising on a non-string field, which ends in 500;
  - a request without a JSON body in `update_review_status`, whose `data.get` raises and ends in 500.
  Names and texts are strings and the rating is an integer. In `update_review_status`, such a request is treated like a missing status (400).
- Reviews.SortNewestFirst: MySQL leaves the order of equal timestamps unspecified; the model breaks ties in table order.
- Reviews.ReviewTable.AddReview and Auth.UserStore.SignUp: ids come from a counter that increments by one. AUTO_INCREMENT gaps are not modelled.
- Visitor.VisitorTables.TrackVisitor: the tables are sequences in insertion order. Their `UNIQUE` keys (the log's (ip, user agent, date) and the stats' `date`) are invariants rather than the shape of a map. The database schema is not part of this model either: those keys come from the handler's duplicate-key logic.
- Stats.OnlineUsers: the `COUNT(*)` row missing, or without `total`, cannot happen, so those branches are left out.
- Auth.UserStore.SignUp: a `role` sent as JSON `null` is treated like an absent one and stored as `user` with 201. The code instead passes `None` to the INSERT (routes/auth.py:98, 111-114), which stores NULL or, if the column is `NOT NULL`, raises `IntegrityError` and is answered 409 (routes/auth.py:126-127); the schema is not part of this model, so that outcome is not decided here.
- Tokens.TokenRequired: a decoded token whose `user_id` is JSON `null` is treated like one without the claim and refused with 403 "An error occurred". The code reads `data['user_id']` as `None` without raising (authentication/token_generator.py:37) and admits the request with a `None` user id; claims are modelled as `Option<int>`, which cannot tell the two apart.
- Sign-up does not validate the role: any string the client sends is stored, `admin` included.
