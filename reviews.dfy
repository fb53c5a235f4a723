/** Review moderation of `routes/reviews.py` over the `user_reviews` table:
    submission (validation and insert as `pending`), listing (visibility by
    role, newest first, offset/limit pages) and the admin-only status
    change. */
module Reviews {
  import opened Common
  import opened Tokens

  datatype Status = Pending | Approved | Rejected

  /** A row of `user_reviews`; `updatedTime` is NULL until a status change. */
  datatype ReviewRow = ReviewRow(id: nat, name: string, review: string, rating: int,
                                 status: Status, timestamp: int, updatedTime: Option<int>)

  /** The fields of a submission body; an absent key is `None`. */
  datatype ReviewBody = ReviewBody(name: Option<string>, review: Option<string>, rating: Option<int>)

  /** A submission that passed validation: stripped texts and the rating. */
  datatype Submission = Submission(name: string, review: string, rating: int)

  const MaxNameLength: int := 255
  const MaxReviewLength: int := 1000
  const MinRating: int := 1
  const MaxRating: int := 5
  const DefaultOffset: int := 0
  const DefaultLimit: int := 5
  const AdminRole: string := "admin"
  /** The role of a listing caller without a token, or whose token has no role. */
  const GuestRole: string := "guest"

  function StatusName(s: Status): string
  {
    match s
    case Pending => "pending"
    case Approved => "approved"
    case Rejected => "rejected"
  }

  /** A stored review satisfies the submission rules. */
  predicate WellFormed(r: ReviewRow)
  {
    && r.name != "" && |r.name| <= MaxNameLength
    && r.review != "" && |r.review| <= MaxReviewLength
    && MinRating <= r.rating <= MaxRating
  }

  // ---------------------------------------------------------------- submit

  /** The validation chain of `add_review`. Name and review are stripped
      first; then an empty name or review or a missing rating, a stripped
      name over 255 or review over 1000 characters, and a rating outside
      1..5 are each answered with 400. */
  function ValidateReview(body: Option<ReviewBody>): (r: Result<Submission>)
    ensures r.Err? ==> r.resp.status == 400
    ensures body.None? ==> r.Err?
    ensures body.Some? ==>
              var n, t, g := Strip(body.value.name.GetOr("")), Strip(body.value.review.GetOr("")), body.value.rating;
              && (r.Ok? <==> && n != "" && t != "" && g.Some?
                             && |n| <= MaxNameLength && |t| <= MaxReviewLength
                             && MinRating <= g.value <= MaxRating)
              && (r.Ok? ==> r.value == Submission(n, t, g.value))
  {
    if body.None? then Err(Reply(400, "Invalid input"))
    else
      var name := Strip(body.value.name.GetOr(""));
      var review := Strip(body.value.review.GetOr(""));
      var rating := body.value.rating;
      if name == "" || review == "" || rating.None? then
        Err(Reply(400, "All fields (name, review, rating) are required"))
      else if |name| > MaxNameLength || |review| > MaxReviewLength then
        Err(Reply(400, "Name or review is too long"))
      else if rating.value < MinRating || rating.value > MaxRating then
        Err(Reply(400, "Rating must be an integer between 1 and 5"))
      else
        Ok(Submission(name, review, rating.value))
  }

  /** A name or review made only of white space is rejected, whatever the
      rest of the submission. */
  lemma BlankFieldRejected(name: string, review: string, rating: Option<int>)
    requires AllSpace(name) || AllSpace(review)
    ensures ValidateReview(Some(ReviewBody(Some(name), Some(review), rating))) ==
            Err(Reply(400, "All fields (name, review, rating) are required"))
  {
    StripEmptyIffBlank(name);
    StripEmptyIffBlank(review);
  }

  /** For texts that pass, the rating decides: exactly 1..5 is accepted, so
      0 and 6 fail while 1 and 5 pass. */
  lemma RatingBounds(name: string, review: string, rating: int)
    requires Strip(name) != "" && |Strip(name)| <= MaxNameLength
    requires Strip(review) != "" && |Strip(review)| <= MaxReviewLength
    ensures ValidateReview(Some(ReviewBody(Some(name), Some(review), Some(rating)))).Ok?
            <==> 1 <= rating <= 5
    ensures !(1 <= rating <= 5) ==>
            ValidateReview(Some(ReviewBody(Some(name), Some(review), Some(rating)))) ==
            Err(Reply(400, "Rating must be an integer between 1 and 5"))
  {
  }

  /** Validated submissions satisfy the rules every stored review obeys. */
  lemma ValidatedIsWellFormed(body: Option<ReviewBody>, id: nat, now: int)
    requires ValidateReview(body).Ok?
    ensures WellFormed(NewReview(id, ValidateReview(body).value, now))
  {
  }

  /** The row `add_review` inserts: status `pending`, stamped `now`. */
  function NewReview(id: nat, s: Submission, now: int): (r: ReviewRow)
    ensures Submission(r.name, r.review, r.rating) == s
    ensures r.id == id && r.status == Pending && r.timestamp == now && r.updatedTime.None?
  {
    ReviewRow(id, s.name, s.review, s.rating, Pending, now, None)
  }

  // ----------------------------------------------------------------- list

  /** Timestamps do not increase along `s`. */
  ghost predicate NewestFirst(s: seq<ReviewRow>)
  {
    forall i, j :: 0 <= i < j < |s| ==> s[i].timestamp >= s[j].timestamp
  }

  /** The approved rows of `rows`, in table order. */
  function Approved(rows: seq<ReviewRow>): (r: seq<ReviewRow>)
    ensures multiset(r) <= multiset(rows)
    ensures forall i :: 0 <= i < |r| ==> r[i].status == Status.Approved
  {
    if rows == [] then []
    else
      assert rows == [rows[0]] + rows[1..];
      if rows[0].status == Status.Approved then [rows[0]] + Approved(rows[1..]) else Approved(rows[1..])
  }

  /** The filter drops nothing approved: every approved row occurs in
      `Approved(rows)` as often as in `rows`, and no other row occurs there. */
  lemma {:induction false} ApprovedKeepsCounts(rows: seq<ReviewRow>, x: ReviewRow)
    ensures multiset(Approved(rows))[x] == if x.status == Status.Approved then multiset(rows)[x] else 0
  {
    if rows != [] {
      assert rows == [rows[0]] + rows[1..];
      ApprovedKeepsCounts(rows[1..], x);
    }
  }

  /** The rows a caller with `role` may see: all of them for `admin`, the
      approved ones for every other role. */
  function Visible(rows: seq<ReviewRow>, role: string): (r: seq<ReviewRow>)
    ensures role == AdminRole ==> r == rows
    ensures role != AdminRole ==> r == Approved(rows)
  {
    if role == AdminRole then rows else Approved(rows)
  }

  /** Prepending a row no older than the head keeps a sequence newest first. */
  lemma ConsNewestFirst(x: ReviewRow, s: seq<ReviewRow>)
    requires NewestFirst(s) && (s != [] ==> x.timestamp >= s[0].timestamp)
    ensures NewestFirst([x] + s)
  {
    var r := [x] + s;
    forall i, j | 0 <= i < j < |r| ensures r[i].timestamp >= r[j].timestamp {
      if i == 0 && j > 1 { assert s[0].timestamp >= s[j - 1].timestamp; }
    }
  }

  /** Dropping the head of a newest-first sequence keeps it newest first. */
  lemma TailNewestFirst(s: seq<ReviewRow>)
    requires s != [] && NewestFirst(s)
    ensures NewestFirst(s[1..])
  {
    forall i, j | 0 <= i < j < |s| - 1 ensures s[1..][i].timestamp >= s[1..][j].timestamp {
      assert s[1..][i] == s[i + 1] && s[1..][j] == s[j + 1];
    }
  }

  /** Puts `x` before the first row of `s` that is not newer than it. */
  function InsertByTime(x: ReviewRow, s: seq<ReviewRow>): (r: seq<ReviewRow>)
    requires NewestFirst(s)
    ensures |r| == |s| + 1
    ensures r[0] == x || (s != [] && r[0] == s[0])
    ensures multiset(r) == multiset(s) + multiset{x}
    ensures NewestFirst(r)
  {
    if s == [] || x.timestamp >= s[0].timestamp then
      ConsNewestFirst(x, s);
      [x] + s
    else
      TailNewestFirst(s);
      var t := InsertByTime(x, s[1..]);
      ConsNewestFirst(s[0], t);
      assert s == [s[0]] + s[1..];
      assert multiset([s[0]] + t) == multiset{s[0]} + multiset(t);
      [s[0]] + t
  }

  /** `ORDER BY timestamp DESC`: the same rows, newest first. */
  function SortNewestFirst(s: seq<ReviewRow>): (r: seq<ReviewRow>)
    ensures |r| == |s|
    ensures multiset(r) == multiset(s)
    ensures NewestFirst(r)
  {
    if s == [] then []
    else
      assert s == [s[0]] + s[1..];
      InsertByTime(s[0], SortNewestFirst(s[1..]))
  }

  /** `LIMIT limit OFFSET offset`: at most `limit` rows, after skipping
      `offset` of them. */
  function Page(s: seq<ReviewRow>, offset: nat, limit: nat): (r: seq<ReviewRow>)
    ensures |r| <= limit
    ensures offset <= |s| ==> |r| == (if offset + limit <= |s| then limit else |s| - offset)
    ensures offset <= |s| ==> r == s[offset..offset + |r|]
    ensures offset >= |s| ==> r == []
  {
    if offset >= |s| then []
    else if offset + limit <= |s| then s[offset..offset + limit]
    else s[offset..]
  }

  /** The role `get_reviews` lists for: `guest` without a header; otherwise
      the token's role claim (`guest` when it has none). An expired or
      invalid token is answered with 403 rather than treated as a guest; any
      other decoding failure escapes the handler and becomes 500. */
  function ListingRole(header: Option<string>, decode: string -> DecodeOutcome): (r: Result<string>)
    ensures !Present(header) ==> r == Ok(GuestRole)
    ensures Present(header) ==>
              match decode(ExtractToken(header.value))
              case Decoded(c) => r == Ok(c.role.GetOr(GuestRole))
              case Expired => r == Err(Reply(403, "Token has expired"))
              case Invalid => r == Err(Reply(403, "Invalid token"))
              case OtherError => r.Err? && r.resp.status == 500
  {
    if !Present(header) then Ok(GuestRole)
    else
      match decode(ExtractToken(header.value))
      case Decoded(c) => Ok(c.role.GetOr(GuestRole))
      case Expired => Err(Reply(403, "Token has expired"))
      case Invalid => Err(Reply(403, "Invalid token"))
      case OtherError => Err(Reply(500, "Internal Server Error"))
  }

  /** The page a caller with `role` is shown: newest first, at most `limit`
      of the visible rows after skipping `offset` of them, all of them rows
      of the table, and only approved ones for a non-admin. */
  function ListPage(rows: seq<ReviewRow>, role: string, offset: nat, limit: nat): (page: seq<ReviewRow>)
    ensures |page| <= limit
    ensures page == [] <==> |Visible(rows, role)| <= offset || limit == 0
    ensures PageOf(page, SortNewestFirst(Visible(rows, role)), offset, limit)
    ensures NewestFirst(page)
    ensures multiset(page) <= multiset(rows)
    ensures role != AdminRole ==> forall i :: 0 <= i < |page| ==> page[i].status == Status.Approved
  {
    var ordered := SortNewestFirst(Visible(rows, role));
    PageSlice(ordered, offset, limit);
    PageStaysSorted(ordered, offset, limit);
    PageInRows(rows, role, offset, limit);
    PageApproved(rows, role, offset, limit);
    Page(ordered, offset, limit)
  }

  lemma PageInRows(rows: seq<ReviewRow>, role: string, offset: nat, limit: nat)
    ensures multiset(Page(SortNewestFirst(Visible(rows, role)), offset, limit)) <= multiset(rows)
  {
    var visible := Visible(rows, role);
    PageSubMultiset(SortNewestFirst(visible), offset, limit);
    VisibleSubMultiset(rows, role);
  }

  lemma PageApproved(rows: seq<ReviewRow>, role: string, offset: nat, limit: nat)
    ensures var page := Page(SortNewestFirst(Visible(rows, role)), offset, limit);
            role != AdminRole ==> forall i :: 0 <= i < |page| ==> page[i].status == Status.Approved
  {
    if role != AdminRole {
      var visible := Visible(rows, role);
      PageSubMultiset(SortNewestFirst(visible), offset, limit);
      SubMultisetKeepsApproved(Page(SortNewestFirst(visible), offset, limit), visible);
    }
  }

  /** A non-empty `page` is the run of `s` that starts after `offset` rows
      and holds `limit` of them, or all that remain. */
  ghost predicate PageOf(page: seq<ReviewRow>, s: seq<ReviewRow>, offset: nat, limit: nat)
  {
    page != [] ==> && offset + |page| <= |s| && page == s[offset..offset + |page|]
                   && (|page| == limit || offset + |page| == |s|)
  }

  lemma PageSlice(s: seq<ReviewRow>, offset: nat, limit: nat)
    ensures PageOf(Page(s, offset, limit), s, offset, limit)
  {
  }

  lemma PageStaysSorted(s: seq<ReviewRow>, offset: nat, limit: nat)
    requires NewestFirst(s)
    ensures NewestFirst(Page(s, offset, limit))
  {
    var p := Page(s, offset, limit);
    forall i, j | 0 <= i < j < |p| ensures p[i].timestamp >= p[j].timestamp {
      assert p[i] == s[offset + i] && p[j] == s[offset + j];
    }
  }

  lemma PageSubMultiset(s: seq<ReviewRow>, offset: nat, limit: nat)
    ensures multiset(Page(s, offset, limit)) <= multiset(s)
  {
    var p := Page(s, offset, limit);
    if p != [] {
      assert s == s[..offset] + p + s[offset + |p|..];
    }
  }

  lemma SubMultisetKeepsApproved(a: seq<ReviewRow>, b: seq<ReviewRow>)
    requires multiset(a) <= multiset(b)
    requires forall i :: 0 <= i < |b| ==> b[i].status == Status.Approved
    ensures forall i :: 0 <= i < |a| ==> a[i].status == Status.Approved
  {
    forall i | 0 <= i < |a| ensures a[i].status == Status.Approved {
      assert a[i] in multiset(a);
      assert a[i] in multiset(b);
      var j :| 0 <= j < |b| && b[j] == a[i];
    }
  }

  lemma VisibleSubMultiset(rows: seq<ReviewRow>, role: string)
    ensures multiset(Visible(rows, role)) <= multiset(rows)
  {
  }

  /** `get_reviews`: after the role is settled, the visible rows newest first,
      `limit` of them (5 by default) after skipping `offset` (0 by default);
      an empty page is answered with 404, and a negative offset or limit,
      which MySQL refuses, with 500. */
  function GetReviews(rows: seq<ReviewRow>, header: Option<string>, decode: string -> DecodeOutcome,
                      offset: Option<int>, limit: Option<int>): (r: Result<seq<ReviewRow>>)
    ensures ListingRole(header, decode).Err? ==> r == Err(ListingRole(header, decode).resp)
    ensures ListingRole(header, decode).Ok? && (offset.GetOr(DefaultOffset) < 0 || limit.GetOr(DefaultLimit) < 0) ==>
              r.Err? && r.resp.status == 500
    ensures ListingRole(header, decode).Ok? && offset.GetOr(DefaultOffset) >= 0 && limit.GetOr(DefaultLimit) >= 0 ==>
              var page := ListPage(rows, ListingRole(header, decode).value, offset.GetOr(DefaultOffset), limit.GetOr(DefaultLimit));
              && (page == [] ==> r == Err(Reply(404, "No reviews found")))
              && (page != [] ==> r == Ok(page))
  {
    match ListingRole(header, decode)
    case Err(e) => Err(e)
    case Ok(role) =>
      var off, lim := offset.GetOr(DefaultOffset), limit.GetOr(DefaultLimit);
      if off < 0 || lim < 0 then Err(Reply(500, "An error occurred"))
      else
        var page := ListPage(rows, role, off, lim);
        if page == [] then Err(Reply(404, "No reviews found")) else Ok(page)
  }

  /** A caller without a token, or whose token carries no admin role
      (including none at all), is only ever shown approved reviews. */
  lemma NonAdminSeesOnlyApproved(rows: seq<ReviewRow>, header: Option<string>,
                                 decode: string -> DecodeOutcome, offset: Option<int>, limit: Option<int>)
    requires !Present(header) || (decode(ExtractToken(header.value)).Decoded? &&
                                  decode(ExtractToken(header.value)).claims.role != Some(AdminRole))
    ensures GetReviews(rows, header, decode, offset, limit).Ok? ==>
              forall x :: x in GetReviews(rows, header, decode, offset, limit).value ==> x.status == Status.Approved
  {
  }

  /** An admin asking for a page large enough sees every review, of every
      status. */
  lemma AdminSeesEverything(rows: seq<ReviewRow>, header: string, decode: string -> DecodeOutcome, limit: int)
    requires header != "" && decode(ExtractToken(header)).Decoded?
    requires decode(ExtractToken(header)).claims.role == Some(AdminRole)
    requires rows != [] && |rows| <= limit
    ensures GetReviews(rows, Some(header), decode, None, Some(limit)).Ok?
    ensures multiset(GetReviews(rows, Some(header), decode, None, Some(limit)).value) == multiset(rows)
  {
    var ordered := SortNewestFirst(rows);
    assert |ordered| == |multiset(ordered)| == |rows|;
    assert Page(ordered, 0, limit) == ordered;
  }

  /** In particular, an admin's token as sign-in issues it, sent after a
      scheme such as `Bearer`, lists every review. */
  lemma IssuedAdminTokenSeesEverything(rows: seq<ReviewRow>, userId: int, now: int, hours: int,
                                       scheme: string, token: string, decode: string -> DecodeOutcome,
                                       limit: int)
    requires ' ' !in scheme && ' ' !in token
    requires decode(token) == Decoded(ClaimsOf(GeneratePayload(userId, AdminRole, now, hours)))
    requires rows != [] && |rows| <= limit
    ensures GetReviews(rows, Some(scheme + " " + token), decode, None, Some(limit)).Ok?
    ensures multiset(GetReviews(rows, Some(scheme + " " + token), decode, None, Some(limit)).value) == multiset(rows)
  {
    ExtractTokenField(scheme, token, []);
    assert scheme + " " + token + [] == scheme + " " + token;
    AdminSeesEverything(rows, scheme + " " + token, decode, limit);
  }

  // --------------------------------------------------------------- update

  /** `new_status` must be `approved` or `rejected`; nothing else (not even
      `pending`) is accepted. */
  function ParseStatus(s: Option<string>): (r: Option<Status>)
    ensures r.Some? <==> s == Some("approved") || s == Some("rejected")
    ensures r.Some? ==> r.value != Pending && StatusName(r.value) == s.value
  {
    if s == Some("approved") then Some(Status.Approved)
    else if s == Some("rejected") then Some(Rejected)
    else None
  }

  /** Position of the row with id `id`, if there is one. */
  function FindReview(rows: seq<ReviewRow>, id: int): (r: Option<nat>)
    ensures r.Some? ==> r.value < |rows| && rows[r.value].id == id
    ensures r.Some? ==> forall k :: 0 <= k < r.value ==> rows[k].id != id
    ensures r.None? ==> forall k :: 0 <= k < |rows| ==> rows[k].id != id
  {
    if rows == [] then None
    else if rows[0].id == id then Some(0)
    else
      match FindReview(rows[1..], id)
      case None => None
      case Some(k) => Some(k + 1)
  }

  /** The reply and the table after a status-change request. */
  datatype Transition = Transition(resp: Response, rows: seq<ReviewRow>)

  const AdminRequired: Response :=
    Reply(403, "Admin access required")

  /** `update_review_status` once the caller's role is known. In order: a
      non-admin gets 403, a status other than approved/rejected 400, an
      unknown id 404, a status equal to the current one 200 with nothing
      changed; otherwise the row gets the new status and `updated_time`
      `now`, every other row and field stays as it was, and 200 follows. */
  function StatusUpdate(rows: seq<ReviewRow>, role: string, id: int,
                        newStatus: Option<string>, now: int): (t: Transition)
    ensures role != AdminRole ==> t == Transition(AdminRequired, rows)
    ensures role == AdminRole && ParseStatus(newStatus).None? ==>
              t == Transition(Reply(400, "Invalid status value"), rows)
    ensures role == AdminRole && ParseStatus(newStatus).Some? && FindReview(rows, id).None? ==>
              t == Transition(Reply(404, "Review not found"), rows)
    ensures role == AdminRole && ParseStatus(newStatus).Some? && FindReview(rows, id).Some? ==>
              var s, i := ParseStatus(newStatus).value, FindReview(rows, id).value;
              && t.resp.status == 200
              && |t.rows| == |rows|
              && t.rows[i].status == s
              && (rows[i].status == s ==> t.rows == rows)
              && (rows[i].status != s ==> t.rows[i] == rows[i].(status := s, updatedTime := Some(now)))
              && (forall k :: 0 <= k < |rows| && k != i ==> t.rows[k] == rows[k])
  {
    if role != AdminRole then Transition(AdminRequired, rows)
    else match ParseStatus(newStatus)
      case None => Transition(Reply(400, "Invalid status value"), rows)
      case Some(s) =>
        match FindReview(rows, id)
        case None => Transition(Reply(404, "Review not found"), rows)
        case Some(i) =>
          if rows[i].status == s then
            Transition(Reply(200, "Review status is already " + StatusName(s)), rows)
          else
            Transition(Reply(200, "Review status updated to " + StatusName(s)),
                       rows[i := rows[i].(status := s, updatedTime := Some(now))])
  }

  /** A non-admin is refused before any lookup: the reply and the table are
      the same whether or not the review exists. */
  lemma NonAdminRefusedRegardless(rows1: seq<ReviewRow>, rows2: seq<ReviewRow>, role: string,
                                  id: int, newStatus: Option<string>, now: int)
    requires role != AdminRole
    ensures StatusUpdate(rows1, role, id, newStatus, now).resp == StatusUpdate(rows2, role, id, newStatus, now).resp
    ensures StatusUpdate(rows1, role, id, newStatus, now).resp.status == 403
  {
  }

  /** Repeating a successful status change is a no-op: the second request
      answers 200 and leaves the table as the first one left it. */
  lemma {:induction false} StatusUpdateIdempotent(rows: seq<ReviewRow>, id: int, newStatus: Option<string>,
                                                  now1: int, now2: int)
    requires StatusUpdate(rows, AdminRole, id, newStatus, now1).resp.status == 200
    ensures var once := StatusUpdate(rows, AdminRole, id, newStatus, now1);
            StatusUpdate(once.rows, AdminRole, id, newStatus, now2) ==
            Transition(Reply(200, "Review status is already " + newStatus.value), once.rows)
  {
    var once := StatusUpdate(rows, AdminRole, id, newStatus, now1);
    var i := FindReview(rows, id).value;
    FindAfterUpdate(rows, once.rows, id, i);
  }

  /** Changing a row in place without changing its id keeps it the one found. */
  lemma {:induction false} FindAfterUpdate(rows: seq<ReviewRow>, rows': seq<ReviewRow>, id: int, i: nat)
    requires FindReview(rows, id) == Some(i) && |rows'| == |rows|
    requires rows'[i].id == id
    requires forall k :: 0 <= k < |rows| && k != i ==> rows'[k] == rows[k]
    ensures FindReview(rows', id) == Some(i)
  {
  }

  /** No request ever moves a review back to `pending`, and every row other
      than the one named keeps its status. */
  lemma StatusUpdateNeverPending(rows: seq<ReviewRow>, role: string, id: int,
                                 newStatus: Option<string>, now: int, k: nat)
    requires k < |rows|
    ensures var t := StatusUpdate(rows, role, id, newStatus, now);
            |t.rows| == |rows| &&
            (t.rows[k].status == rows[k].status || (t.rows[k].id == id && t.rows[k].status != Pending))
  {
  }

  /** A decision can be reversed: an approved review can still be rejected
      (and a rejected one approved), since the handler only compares the new
      status with the current one. */
  lemma ApprovedCanBeRejected(rows: seq<ReviewRow>, id: int, now: int)
    requires FindReview(rows, id).Some? && rows[FindReview(rows, id).value].status == Status.Approved
    ensures var t := StatusUpdate(rows, AdminRole, id, Some("rejected"), now);
            && t.resp == Reply(200, "Review status updated to rejected")
            && t.rows[FindReview(rows, id).value].status == Rejected
  {
  }

  /** Every stored review obeys the submission rules, ids come from the
      counter `nextId`, and no two rows share an id. */
  ghost predicate TableValid(rows: seq<ReviewRow>, nextId: nat)
  {
    && (forall i :: 0 <= i < |rows| ==> WellFormed(rows[i]) && rows[i].id < nextId)
    && (forall i, j :: 0 <= i < j < |rows| ==> rows[i].id != rows[j].id)
  }

  /** Appending a well-formed row that takes the next id keeps the table valid. */
  lemma AppendKeepsValid(rows: seq<ReviewRow>, nextId: nat, row: ReviewRow)
    requires TableValid(rows, nextId) && WellFormed(row) && row.id == nextId
    ensures TableValid(rows + [row], nextId + 1)
  {
  }

  /** The `user_reviews` table with MySQL's AUTO_INCREMENT counter for `id`. */
  class ReviewTable {
    var rows: seq<ReviewRow>
    var nextId: nat

    ghost predicate Valid()
      reads this
    {
      TableValid(rows, nextId)
    }

    constructor ()
      ensures Valid() && rows == [] && nextId == 1
    {
      rows := [];
      nextId := 1;
    }

    /** `add_review`: an invalid submission is answered with its 400 and
        nothing is stored; a valid one appends exactly one `pending` row with
        the stripped texts and the rating, and existing rows stay as they are. */
    method AddReview(body: Option<ReviewBody>, now: int) returns (resp: Response)
      requires Valid()
      modifies this
      ensures Valid()
      ensures ValidateReview(body).Err? ==> resp == ValidateReview(body).resp && unchanged(this)
      ensures ValidateReview(body).Ok? ==>
                && resp == Reply(201, "Review submitted successfully")
                && rows == old(rows) + [NewReview(old(nextId), ValidateReview(body).value, now)]
                && nextId == old(nextId) + 1
    {
      var v := ValidateReview(body);
      if v.Err? {
        return v.resp;
      }
      var row := NewReview(nextId, v.value, now);
      ValidatedIsWellFormed(body, nextId, now);
      AppendKeepsValid(rows, nextId, row);
      rows, nextId := rows + [row], nextId + 1;
      resp := Reply(201, "Review submitted successfully");
    }

    /** `update_review_status` for a caller whose role is known: the check
        order and the single-row update of `StatusUpdate`, done in place. */
    method UpdateReviewStatus(role: string, id: int, newStatus: Option<string>, now: int)
      returns (resp: Response)
      requires Valid()
      modifies this
      ensures Valid() && nextId == old(nextId)
      ensures Transition(resp, rows) == StatusUpdate(old(rows), role, id, newStatus, now)
    {
      if role != AdminRole {
        return AdminRequired;
      }
      var s := ParseStatus(newStatus);
      if s.None? {
        return Reply(400, "Invalid status value");
      }
      var found := FindReview(rows, id);
      if found.None? {
        return Reply(404, "Review not found");
      }
      var i := found.value;
      if rows[i].status == s.value {
        return Reply(200, "Review status is already " + StatusName(s.value));
      }
      rows := rows[i := rows[i].(status := s.value, updatedTime := Some(now))];
      resp := Reply(200, "Review status updated to " + StatusName(s.value));
    }

    /** The route itself: the token gate first, whose refusals never reach
        the handler, then the handler with the admitted role. */
    method UpdateReviewStatusRequest(header: Option<string>, decode: string -> DecodeOutcome,
                                     id: int, newStatus: Option<string>, now: int)
      returns (resp: Response)
      requires Valid()
      modifies this
      ensures Valid() && nextId == old(nextId)
      ensures TokenRequired(header, decode).Err? ==>
                resp == TokenRequired(header, decode).resp && unchanged(this)
      ensures TokenRequired(header, decode).Ok? ==>
                Transition(resp, rows) ==
                StatusUpdate(old(rows), TokenRequired(header, decode).value.role, id, newStatus, now)
    {
      var gate := TokenRequired(header, decode);
      if gate.Err? {
        return gate.resp;
      }
      resp := UpdateReviewStatus(gate.value.role, id, newStatus, now);
    }
  }
}
