/** The paginated fetch of a channel's history in `generateArchiveZip`
    (src/index.ts:201-231) and the truncation to the limit (line 236).
    The upstream message API is a total function from a request to a reply;
    the loop is a recursion that spends one unit of `fuel` per request. */
module Pagination {
  import opened Wrappers
  import opened Messages
  import opened Strings

  /** The largest page the loop ever asks for. */
  const PageLimit: nat := 100

  /** A request's query: the `limit` parameter and the optional `before` cursor. */
  datatype Request = Request(count: nat, before: Option<string>)

  /** What one request yields: a non-2xx status, a body that is not JSON or a
      request that fails outright (both throw and abort the fetch), JSON that is
      not an array, or an array of messages (newest first). */
  datatype Reply = HttpError(status: int) | BodyNotJson | NotAnArray | Batch(page: seq<Message>)

  datatype Exchange = Exchange(request: Request, reply: Reply)

  /** Why a fetch fails. `OutOfFuel` belongs to the model only: the source loops
      for as long as the upstream keeps sending full pages. */
  datatype FetchError = UpstreamStatus(status: int) | UnreadableBody | OutOfFuel

  /** The requests made with their replies, and what the loop produced. */
  datatype Run = Run(trace: seq<Exchange>, outcome: Result<seq<Message>, FetchError>)

  type Upstream = Request -> Reply

  /** `limit` as a JavaScript condition: absent and `0` are false. */
  predicate Truthy(limit: Option<int>)
  {
    limit.Some? && limit.value != 0
  }

  predicate Positive(limit: Option<int>)
  {
    limit.Some? && limit.value > 0
  }

  predicate Negative(limit: Option<int>)
  {
    limit.Some? && limit.value < 0
  }

  /** `maxFetch`: the limit when it is positive, otherwise infinity (`None`). */
  function MaxFetch(limit: Option<int>): Option<int>
  {
    if Truthy(limit) && limit.value > 0 then limit else None
  }

  /** One round's decision: `None` when the loop breaks before asking (line 207),
      otherwise the page size it asks for (lines 208-210). */
  function PageSize(limit: Option<int>, fetched: nat): (r: Option<nat>)
    ensures r.None? <==> Truthy(limit) && fetched >= limit.value
    ensures r.Some? ==> 1 <= r.value <= PageLimit
    ensures r.Some? && Positive(limit) ==> r.value == Min(PageLimit, limit.value - fetched)
    ensures !Truthy(limit) ==> r == Some(PageLimit)
  {
    if Truthy(limit) && fetched >= limit.value then None
    else if Truthy(limit) then
      match MaxFetch(limit)
      case None => Some(PageLimit)
      case Some(m) => Some(Min(PageLimit, m - fetched))
    else Some(PageLimit)
  }

  /** The `before` query parameter: omitted when the cursor is unset or empty (line 213). */
  function BeforeParam(before: Option<string>): Option<string>
  {
    if before.Some? && before.value != "" then before else None
  }

  function PageOf(reply: Reply): seq<Message>
  {
    if reply.Batch? then reply.page else []
  }

  /** Every message the replies of `trace` delivered, in arrival order. */
  function Delivered(trace: seq<Exchange>): seq<Message>
  {
    if |trace| == 0 then [] else PageOf(trace[0].reply) + Delivered(trace[1..])
  }

  /** An exchange after which the loop breaks without error: not an array, an
      empty page, or a page shorter than asked for (lines 227-229). */
  predicate EndsHistory(ex: Exchange)
  {
    ex.reply.NotAnArray? ||
    (ex.reply.Batch? && |ex.reply.page| < ex.request.count)
  }

  /** A full page after which the loop asks again, anchored at its last message. */
  predicate ContinuesInto(ex: Exchange, next: Exchange)
  {
    && ex.reply.Batch?
    && 0 < ex.request.count <= |ex.reply.page|
    && next.request.before == BeforeParam(Some(ex.reply.page[|ex.reply.page| - 1].id))
  }

  /** The reply is a full, non-empty page, after which the loop asks again. */
  predicate Continues(ex: Exchange)
  {
    ex.reply.Batch? && |ex.reply.page| > 0 && |ex.reply.page| >= ex.request.count
  }

  /** How the loop ends on a reply that is not a full page (lines 221-229): an
      HTTP error or a body that is not JSON throws; anything else breaks, keeping
      what a short page brought. */
  function Settle(all: seq<Message>, reply: Reply): Result<seq<Message>, FetchError>
  {
    match reply
    case HttpError(status) => Err(UpstreamStatus(status))
    case BodyNotJson => Err(UnreadableBody)
    case NotAnArray => Ok(all)
    case Batch(page) => Ok(all + page)
  }

  /** The loop of lines 206-231, from the state (`all`, `before`). */
  function Paginate(upstream: Upstream, limit: Option<int>, all: seq<Message>, before: Option<string>, fuel: nat): (r: Run)
    decreases fuel
  {
    match PageSize(limit, |all|)
    case None => Run([], Ok(all))
    case Some(count) =>
      if fuel == 0 then Run([], Err(OutOfFuel))
      else
        var request := Request(count, BeforeParam(before));
        var ex := Exchange(request, upstream(request));
        if Continues(ex) then
          var page := ex.reply.page;
          var rest := Paginate(upstream, limit, all + page, Some(page[|page| - 1].id), fuel - 1);
          Run([ex] + rest.trace, rest.outcome)
        else Run([ex], Settle(all, ex.reply))
  }

  /** The whole fetch: no messages yet and no cursor. A negative limit breaks
      the loop before any request is made. */
  function Fetch(upstream: Upstream, limit: Option<int>, fuel: nat): (r: Run)
    ensures r.outcome.Ok? ==> r.outcome.value == Delivered(r.trace)
    ensures Negative(limit) ==> r == Run([], Ok([]))
    ensures limit == Some(0) || limit.None? ==> forall i :: 0 <= i < |r.trace| ==> r.trace[i].request.count == PageLimit
  {
    var r := Paginate(upstream, limit, [], None, fuel);
    PaginateDelivers(upstream, limit, [], None, fuel);
    assert [] + Delivered(r.trace) == Delivered(r.trace);
    SizesFromStart(upstream, limit, [], None, fuel);
    FullPagesWithoutLimit(limit, r.trace);
    r
  }

  /** One round of the loop, unfolded: the first exchange, and when its reply is a
      full page, the rest of the run. */
  lemma Step(upstream: Upstream, limit: Option<int>, all: seq<Message>, before: Option<string>, fuel: nat)
    requires PageSize(limit, |all|).Some? && fuel > 0
    ensures var r := Paginate(upstream, limit, all, before, fuel);
      var count := PageSize(limit, |all|).value;
      var request := Request(count, BeforeParam(before));
      var ex := Exchange(request, upstream(request));
      && |r.trace| >= 1
      && r.trace[0] == ex
      && (Continues(ex) ==>
            var page := ex.reply.page;
            var rest := Paginate(upstream, limit, all + page, Some(page[|page| - 1].id), fuel - 1);
            r.trace == [ex] + rest.trace && r.outcome == rest.outcome)
      && (!Continues(ex) ==> r.trace == [ex] && r.outcome == Settle(all, ex.reply))
      && (!Continues(ex) && ex.reply.Batch? ==> r.outcome == Ok(all + ex.reply.page))
  {
  }

  lemma DeliveredCons(ex: Exchange, rest: seq<Exchange>)
    ensures Delivered([ex] + rest) == PageOf(ex.reply) + Delivered(rest)
  {
    assert ([ex] + rest)[1..] == rest;
  }

  lemma DeliveredOne(ex: Exchange)
    ensures Delivered([ex]) == PageOf(ex.reply)
  {
    assert [ex][1..] == [];
    assert PageOf(ex.reply) + [] == PageOf(ex.reply);
  }

  /** A run that ends on `reply` keeps what it held plus what the reply delivered. */
  lemma SettleDelivers(all: seq<Message>, reply: Reply)
    ensures Settle(all, reply).Ok? ==> Settle(all, reply).value == all + PageOf(reply)
  {
    assert all + [] == all;
  }

  /** The first request of a round and the state the loop moves to after a full page. */
  function FirstExchange(upstream: Upstream, limit: Option<int>, all: seq<Message>, before: Option<string>): Exchange
    requires PageSize(limit, |all|).Some?
  {
    var request := Request(PageSize(limit, |all|).value, BeforeParam(before));
    Exchange(request, upstream(request))
  }

  /** A successful run returns what it held followed by what its replies delivered. */
  ghost predicate DeliversAll(upstream: Upstream, limit: Option<int>, all: seq<Message>, before: Option<string>, fuel: nat)
  {
    var r := Paginate(upstream, limit, all, before, fuel);
    r.outcome.Ok? ==> r.outcome.value == all + Delivered(r.trace)
  }

  /** One round keeps `DeliversAll`, given that the rest of the run has it. */
  lemma DeliversStep(upstream: Upstream, limit: Option<int>, all: seq<Message>, before: Option<string>, fuel: nat)
    requires PageSize(limit, |all|).Some? && fuel > 0
    requires var ex := FirstExchange(upstream, limit, all, before);
      Continues(ex) ==>
        DeliversAll(upstream, limit, all + ex.reply.page, Some(ex.reply.page[|ex.reply.page| - 1].id), fuel - 1)
    ensures DeliversAll(upstream, limit, all, before, fuel)
  {
    var r := Paginate(upstream, limit, all, before, fuel);
    Step(upstream, limit, all, before, fuel);
    var ex := r.trace[0];
    if Continues(ex) {
      var page := ex.reply.page;
      var rest := Paginate(upstream, limit, all + page, Some(page[|page| - 1].id), fuel - 1);
      DeliveredCons(ex, rest.trace);
      assert all + page + Delivered(rest.trace) == all + (page + Delivered(rest.trace));
    } else {
      DeliveredOne(ex);
      SettleDelivers(all, ex.reply);
    }
  }

  lemma {:induction false} DeliversFrom(upstream: Upstream, limit: Option<int>, all: seq<Message>, before: Option<string>, fuel: nat)
    ensures DeliversAll(upstream, limit, all, before, fuel)
    decreases fuel
  {
    if PageSize(limit, |all|).Some? && fuel > 0 {
      var ex := FirstExchange(upstream, limit, all, before);
      if Continues(ex) {
        DeliversFrom(upstream, limit, all + ex.reply.page, Some(ex.reply.page[|ex.reply.page| - 1].id), fuel - 1);
      }
      DeliversStep(upstream, limit, all, before, fuel);
    } else {
      assert all + [] == all;
    }
  }

  /** A successful run returns the messages already held followed by every page
      its replies delivered, in arrival order. */
  lemma PaginateDelivers(upstream: Upstream, limit: Option<int>, all: seq<Message>, before: Option<string>, fuel: nat)
    ensures var r := Paginate(upstream, limit, all, before, fuel);
      r.outcome.Ok? ==> r.outcome.value == all + Delivered(r.trace)
  {
    DeliversFrom(upstream, limit, all, before, fuel);
  }

  lemma DeliveredPrefix(ex: Exchange, rest: seq<Exchange>, i: nat)
    requires i <= |rest|
    ensures Delivered(([ex] + rest)[..i + 1]) == PageOf(ex.reply) + Delivered(rest[..i])
  {
    var t := ([ex] + rest)[..i + 1];
    assert t[0] == ex && t[1..] == rest[..i];
  }

  /** The `i`-th request of `trace` asks for what `PageSize` decides from the
      `fetched` messages held at the start plus those delivered before it. */
  predicate SizeAt(limit: Option<int>, fetched: nat, trace: seq<Exchange>, i: nat)
    requires i < |trace|
  {
    PageSize(limit, fetched + |Delivered(trace[..i])|) == Some(trace[i].request.count)
  }

  predicate SizesFrom(limit: Option<int>, fetched: nat, trace: seq<Exchange>)
  {
    forall i :: 0 <= i < |trace| ==> SizeAt(limit, fetched, trace, i)
  }

  ghost predicate SizesHold(upstream: Upstream, limit: Option<int>, all: seq<Message>, before: Option<string>, fuel: nat)
  {
    SizesFrom(limit, |all|, Paginate(upstream, limit, all, before, fuel).trace)
  }

  /** A round whose request was sized from `all` keeps the sizes of the rest of the run. */
  lemma SizesStep(upstream: Upstream, limit: Option<int>, all: seq<Message>, before: Option<string>, fuel: nat)
    requires PageSize(limit, |all|).Some? && fuel > 0
    requires var ex := FirstExchange(upstream, limit, all, before);
      Continues(ex) ==>
        SizesHold(upstream, limit, all + ex.reply.page, Some(ex.reply.page[|ex.reply.page| - 1].id), fuel - 1)
    ensures SizesHold(upstream, limit, all, before, fuel)
  {
    var r := Paginate(upstream, limit, all, before, fuel);
    Step(upstream, limit, all, before, fuel);
    var ex := r.trace[0];
    if Continues(ex) {
      var page := ex.reply.page;
      var rest := Paginate(upstream, limit, all + page, Some(page[|page| - 1].id), fuel - 1);
      SizesExtend(limit, all, ex, rest.trace);
    } else {
      assert r.trace[..0] == [];
      assert SizeAt(limit, |all|, r.trace, 0);
    }
  }

  lemma {:induction false} SizesFromStart(upstream: Upstream, limit: Option<int>, all: seq<Message>, before: Option<string>, fuel: nat)
    ensures SizesHold(upstream, limit, all, before, fuel)
    decreases fuel
  {
    if PageSize(limit, |all|).Some? && fuel > 0 {
      var ex := FirstExchange(upstream, limit, all, before);
      if Continues(ex) {
        SizesFromStart(upstream, limit, all + ex.reply.page, Some(ex.reply.page[|ex.reply.page| - 1].id), fuel - 1);
      }
      SizesStep(upstream, limit, all, before, fuel);
    }
  }

  /** Each request asks for what `PageSize` decides from the number of messages
      delivered before it: `min(100, limit - fetched)` under a positive limit,
      100 otherwise. */
  lemma RequestSizes(upstream: Upstream, limit: Option<int>, all: seq<Message>, before: Option<string>, fuel: nat)
    ensures var r := Paginate(upstream, limit, all, before, fuel);
      forall i :: 0 <= i < |r.trace| ==>
        PageSize(limit, |all| + |Delivered(r.trace[..i])|) == Some(r.trace[i].request.count)
  {
    SizesFromStart(upstream, limit, all, before, fuel);
    SizesSpelledOut(limit, |all|, Paginate(upstream, limit, all, before, fuel).trace);
  }

  lemma SizesSpelledOut(limit: Option<int>, fetched: nat, trace: seq<Exchange>)
    requires SizesFrom(limit, fetched, trace)
    ensures forall i :: 0 <= i < |trace| ==>
      PageSize(limit, fetched + |Delivered(trace[..i])|) == Some(trace[i].request.count)
  {
    forall i | 0 <= i < |trace|
      ensures PageSize(limit, fetched + |Delivered(trace[..i])|) == Some(trace[i].request.count)
    {
      assert SizeAt(limit, fetched, trace, i);
    }
  }

  /** Without a truthy limit every request asks for a full page. */
  lemma FullPagesWithoutLimit(limit: Option<int>, trace: seq<Exchange>)
    requires SizesFrom(limit, 0, trace)
    ensures !Truthy(limit) ==> forall i :: 0 <= i < |trace| ==> trace[i].request.count == PageLimit
  {
    forall i | 0 <= i < |trace|
      ensures !Truthy(limit) ==> trace[i].request.count == PageLimit
    {
      assert SizeAt(limit, 0, trace, i);
    }
  }

  lemma SizesExtend(limit: Option<int>, all: seq<Message>, ex: Exchange, rest: seq<Exchange>)
    requires PageSize(limit, |all|) == Some(ex.request.count)
    requires SizesFrom(limit, |all + PageOf(ex.reply)|, rest)
    ensures SizesFrom(limit, |all|, [ex] + rest)
  {
    var t := [ex] + rest;
    forall i | 0 <= i < |t|
      ensures SizeAt(limit, |all|, t, i)
    {
      if i == 0 {
        assert t[..0] == [];
      } else {
        SizesShift(limit, all, ex, rest, i);
      }
    }
  }

  lemma SizesShift(limit: Option<int>, all: seq<Message>, ex: Exchange, rest: seq<Exchange>, i: nat)
    requires 1 <= i <= |rest|
    requires SizeAt(limit, |all + PageOf(ex.reply)|, rest, i - 1)
    ensures SizeAt(limit, |all|, [ex] + rest, i)
  {
    DeliveredPrefix(ex, rest, i - 1);
  }

  /** The first request carries the starting cursor; every later request is anchored
      at the last message of the full page before it. */
  ghost predicate CursorsHold(upstream: Upstream, limit: Option<int>, all: seq<Message>, before: Option<string>, fuel: nat)
  {
    var r := Paginate(upstream, limit, all, before, fuel);
    && (|r.trace| > 0 ==> r.trace[0].request.before == BeforeParam(before))
    && (forall i :: 0 <= i < |r.trace| - 1 ==> ContinuesInto(r.trace[i], r.trace[i + 1]))
  }

  /** A full page anchors the next request at its last message. */
  lemma CursorsStep(upstream: Upstream, limit: Option<int>, all: seq<Message>, before: Option<string>, fuel: nat)
    requires PageSize(limit, |all|).Some? && fuel > 0
    requires var ex := FirstExchange(upstream, limit, all, before);
      Continues(ex) ==>
        CursorsHold(upstream, limit, all + ex.reply.page, Some(ex.reply.page[|ex.reply.page| - 1].id), fuel - 1)
    ensures CursorsHold(upstream, limit, all, before, fuel)
  {
    var r := Paginate(upstream, limit, all, before, fuel);
    Step(upstream, limit, all, before, fuel);
    var ex := r.trace[0];
    if Continues(ex) {
      var page := ex.reply.page;
      var rest := Paginate(upstream, limit, all + page, Some(page[|page| - 1].id), fuel - 1);
      forall i | 0 <= i < |r.trace| - 1
        ensures ContinuesInto(r.trace[i], r.trace[i + 1])
      {
        if i > 0 {
          assert r.trace[i] == rest.trace[i - 1] && r.trace[i + 1] == rest.trace[i];
        }
      }
    }
  }

  lemma {:induction false} CursorsFrom(upstream: Upstream, limit: Option<int>, all: seq<Message>, before: Option<string>, fuel: nat)
    ensures CursorsHold(upstream, limit, all, before, fuel)
    decreases fuel
  {
    if PageSize(limit, |all|).Some? && fuel > 0 {
      var ex := FirstExchange(upstream, limit, all, before);
      if Continues(ex) {
        CursorsFrom(upstream, limit, all + ex.reply.page, Some(ex.reply.page[|ex.reply.page| - 1].id), fuel - 1);
      }
      CursorsStep(upstream, limit, all, before, fuel);
    }
  }

  lemma CursorsFollowPages(upstream: Upstream, limit: Option<int>, all: seq<Message>, before: Option<string>, fuel: nat)
    ensures var r := Paginate(upstream, limit, all, before, fuel);
      |r.trace| > 0 ==> r.trace[0].request.before == BeforeParam(before)
    ensures var r := Paginate(upstream, limit, all, before, fuel);
      forall i :: 0 <= i < |r.trace| - 1 ==> ContinuesInto(r.trace[i], r.trace[i + 1])
  {
    CursorsFrom(upstream, limit, all, before, fuel);
  }

  /** The loop only stops for one of the source's reasons: the limit is reached,
      the last reply ends the history, or the last reply is an error, which is
      the error reported. */
  ghost predicate StopsWell(upstream: Upstream, limit: Option<int>, all: seq<Message>, before: Option<string>, fuel: nat)
  {
    var r := Paginate(upstream, limit, all, before, fuel);
    && (r.outcome.Ok? ==>
          PageSize(limit, |r.outcome.value|).None? ||
          (|r.trace| > 0 && EndsHistory(r.trace[|r.trace| - 1])))
    && (r.outcome.Err? && r.outcome.error.UpstreamStatus? ==>
          |r.trace| > 0 && r.trace[|r.trace| - 1].reply == HttpError(r.outcome.error.status))
    && (|r.trace| > 0 && r.trace[|r.trace| - 1].reply.HttpError? ==>
          r.outcome == Err(UpstreamStatus(r.trace[|r.trace| - 1].reply.status)))
  }

  /** A full page hands the run over to the rest of it, which decides how it stops. */
  lemma StopsStep(upstream: Upstream, limit: Option<int>, all: seq<Message>, before: Option<string>, fuel: nat)
    requires PageSize(limit, |all|).Some? && fuel > 0
    requires var ex := FirstExchange(upstream, limit, all, before);
      Continues(ex) &&
        StopsWell(upstream, limit, all + ex.reply.page, Some(ex.reply.page[|ex.reply.page| - 1].id), fuel - 1)
    ensures StopsWell(upstream, limit, all, before, fuel)
  {
    var r := Paginate(upstream, limit, all, before, fuel);
    Step(upstream, limit, all, before, fuel);
    var ex := r.trace[0];
    var page := ex.reply.page;
    var rest := Paginate(upstream, limit, all + page, Some(page[|page| - 1].id), fuel - 1);
    if |rest.trace| > 0 {
      assert r.trace[|r.trace| - 1] == rest.trace[|rest.trace| - 1];
    } else {
      assert rest.outcome.Ok? || rest.outcome == Err(OutOfFuel);
    }
  }

  lemma {:induction false} StopsFrom(upstream: Upstream, limit: Option<int>, all: seq<Message>, before: Option<string>, fuel: nat)
    ensures StopsWell(upstream, limit, all, before, fuel)
    decreases fuel
  {
    if PageSize(limit, |all|).Some? && fuel > 0 {
      var ex := FirstExchange(upstream, limit, all, before);
      if Continues(ex) {
        StopsFrom(upstream, limit, all + ex.reply.page, Some(ex.reply.page[|ex.reply.page| - 1].id), fuel - 1);
        StopsStep(upstream, limit, all, before, fuel);
      } else {
        StopsHere(upstream, limit, all, before, fuel);
      }
    }
  }

  lemma StopsForAReason(upstream: Upstream, limit: Option<int>, all: seq<Message>, before: Option<string>, fuel: nat)
    ensures var r := Paginate(upstream, limit, all, before, fuel);
      r.outcome.Ok? ==>
        PageSize(limit, |r.outcome.value|).None? ||
        (|r.trace| > 0 && EndsHistory(r.trace[|r.trace| - 1]))
    ensures var r := Paginate(upstream, limit, all, before, fuel);
      r.outcome.Err? && r.outcome.error.UpstreamStatus? ==>
        |r.trace| > 0 && r.trace[|r.trace| - 1].reply == HttpError(r.outcome.error.status)
    ensures var r := Paginate(upstream, limit, all, before, fuel);
      |r.trace| > 0 && r.trace[|r.trace| - 1].reply.HttpError? ==>
        r.outcome == Err(UpstreamStatus(r.trace[|r.trace| - 1].reply.status))
  {
    StopsFrom(upstream, limit, all, before, fuel);
  }

  lemma StopsHere(upstream: Upstream, limit: Option<int>, all: seq<Message>, before: Option<string>, fuel: nat)
    requires PageSize(limit, |all|).Some? && fuel > 0
    requires !Continues(Paginate(upstream, limit, all, before, fuel).trace[0])
    ensures var r := Paginate(upstream, limit, all, before, fuel);
      && |r.trace| == 1
      && (r.outcome.Ok? ==> EndsHistory(r.trace[0]))
      && (r.outcome.Err? ==> r.outcome.error.UpstreamStatus? || r.outcome.error.UnreadableBody?)
      && (r.outcome.Err? && r.outcome.error.UpstreamStatus? ==> r.trace[0].reply == HttpError(r.outcome.error.status))
      && (r.trace[0].reply.HttpError? ==> r.outcome == Err(UpstreamStatus(r.trace[0].reply.status)))
  {
  }

  /** Without a limit, a full first page whose last message has an empty identifier
      drops the `before` parameter (line 213), so the loop asks the same first request
      forever: no fuel is ever enough. */
  lemma {:induction false} EmptyCursorRepeats(upstream: Upstream, all: seq<Message>, before: Option<string>, fuel: nat)
    requires BeforeParam(before).None?
    requires var reply := upstream(Request(PageLimit, None));
      reply.Batch? && |reply.page| >= PageLimit && reply.page[|reply.page| - 1].id == ""
    ensures Paginate(upstream, None, all, before, fuel).outcome == Err(OutOfFuel)
    decreases fuel
  {
    if fuel > 0 {
      var page := upstream(Request(PageLimit, None)).page;
      EmptyCursorRepeats(upstream, all + page, Some(page[|page| - 1].id), fuel - 1);
    }
  }

  /** Under a positive limit every continuing page adds at least one message,
      so `limit` requests always suffice. */
  lemma {:induction false} FuelForLimit(upstream: Upstream, limit: Option<int>, all: seq<Message>, before: Option<string>, fuel: nat)
    requires Positive(limit) && fuel >= limit.value - |all|
    ensures Paginate(upstream, limit, all, before, fuel).outcome != Err(OutOfFuel)
    decreases fuel
  {
    var count := PageSize(limit, |all|);
    if count.Some? && fuel > 0 {
      var reply := upstream(Request(count.value, BeforeParam(before)));
      if reply.Batch? && |reply.page| >= count.value && |reply.page| > 0 {
        var page := reply.page;
        FuelForLimit(upstream, limit, all + page, Some(page[|page| - 1].id), fuel - 1);
      }
    }
  }

  /** The messages the transcript uses: `all.slice(0, limit)` when the limit is
      truthy, else all of them (line 236). */
  function Used(limit: Option<int>, all: seq<Message>): (r: seq<Message>)
    ensures r <= all
    ensures Positive(limit) ==> r == all[..Min(limit.value, |all|)]
    ensures !Truthy(limit) ==> r == all
  {
    if Truthy(limit) then SliceTo(all, limit.value) else all
  }

  /** With a positive limit the transcript uses at most `limit` messages, the first
      ones to arrive; with none or `0` it uses all; with a negative one, none. */
  lemma LimitBound(upstream: Upstream, limit: Option<int>, fuel: nat)
    ensures var r := Fetch(upstream, limit, fuel);
      r.outcome.Ok? ==>
        var used := Used(limit, r.outcome.value);
        && used <= r.outcome.value
        && (Positive(limit) ==> |used| <= limit.value && |used| == Min(limit.value, |r.outcome.value|))
        && (!Truthy(limit) ==> used == r.outcome.value)
        && (Negative(limit) ==> used == [])
  {
  }

  /** A channel history, newest first, in which every message has its own
      non-empty identifier. */
  predicate WellIdentified(h: seq<Message>)
  {
    && (forall k :: 0 <= k < |h| ==> h[k].id != "")
    && (forall j, k :: 0 <= j < k < |h| ==> h[j].id != h[k].id)
  }

  /** The position of the message with identifier `id`, if there is one. */
  function PositionOf(h: seq<Message>, id: string): (r: Option<nat>)
    ensures r.Some? ==> r.value < |h| && h[r.value].id == id
    ensures r.None? ==> forall k :: 0 <= k < |h| ==> h[k].id != id
  {
    if |h| == 0 then None
    else if h[0].id == id then Some(0)
    else match PositionOf(h[1..], id)
      case None => None
      case Some(k) => Some(k + 1)
  }

  /** An upstream that serves a fixed history: up to `count` messages older than
      the cursor, or from the newest one when there is no cursor. */
  function HistoryPage(h: seq<Message>, request: Request): Reply
  {
    var start :=
      match request.before
      case None => 0
      case Some(id) => (match PositionOf(h, id) case None => |h| case Some(k) => k + 1);
    Batch(h[start..Min(start + request.count, |h|)])
  }

  function HistoryUpstream(h: seq<Message>): Upstream
  {
    (request: Request) => HistoryPage(h, request)
  }

  /** What a fetch of history `h` should produce: the newest `limit` messages
      under a positive limit, none under a negative one, all of them otherwise. */
  function Newest(limit: Option<int>, h: seq<Message>): seq<Message>
  {
    if Positive(limit) then h[..Min(limit.value, |h|)]
    else if Negative(limit) then []
    else h
  }

  lemma PositionOfIdentified(h: seq<Message>, k: nat)
    requires WellIdentified(h) && k < |h|
    ensures PositionOf(h, h[k].id) == Some(k)
  {
  }

  /** The cursor after taking the newest `k` messages of `h`. */
  function CursorAt(h: seq<Message>, k: nat): Option<string>
    requires k <= |h|
  {
    if k == 0 then None else Some(h[k - 1].id)
  }

  /** `up` answers every request anchored in history `h` as the history upstream does. */
  ghost predicate Serves(up: Upstream, h: seq<Message>)
  {
    forall k: nat, count: nat :: k <= |h| ==>
      up(Request(count, BeforeParam(CursorAt(h, k)))) == Batch(h[k..Min(k + count, |h|)])
  }

  /** The history upstream answers a request anchored at the `k`-th newest
      message with the next `count` messages. */
  lemma HistoryReply(h: seq<Message>, k: nat, count: nat)
    requires WellIdentified(h) && k <= |h|
    ensures HistoryUpstream(h)(Request(count, BeforeParam(CursorAt(h, k)))) == Batch(h[k..Min(k + count, |h|)])
  {
    if k > 0 {
      PositionOfIdentified(h, k - 1);
    }
  }

  lemma HistoryServes(h: seq<Message>)
    requires WellIdentified(h)
    ensures Serves(HistoryUpstream(h), h)
  {
    forall k: nat, count: nat | k <= |h|
      ensures HistoryUpstream(h)(Request(count, BeforeParam(CursorAt(h, k)))) == Batch(h[k..Min(k + count, |h|)])
    {
      HistoryReply(h, k, count);
    }
  }

  /** The outcome of the loop entered with the newest `k` messages of `h` taken. */
  ghost function HistoryOutcome(up: Upstream, h: seq<Message>, limit: Option<int>, k: nat, fuel: nat): Result<seq<Message>, FetchError>
    requires k <= |h|
  {
    Paginate(up, limit, h[..k], CursorAt(h, k), fuel).outcome
  }

  /** The loop entered with the newest `k` messages of `h` taken ends with the
      newest messages the limit allows. */
  ghost predicate HistoryFetches(up: Upstream, h: seq<Message>, limit: Option<int>, k: nat, fuel: nat)
    requires k <= |h|
  {
    HistoryOutcome(up, h, limit, k, fuel) == Ok(Newest(limit, h))
  }

  /** One round against the history, the part both outcomes share: the request is
      answered with the next `count` messages, or what is left of them. */
  lemma HistoryRound(up: Upstream, h: seq<Message>, limit: Option<int>, k: nat, fuel: nat)
    requires Serves(up, h) && k <= |h| && PageSize(limit, k).Some? && fuel > 0
    ensures var count := PageSize(limit, k).value;
      var end := Min(k + count, |h|);
      var ex := Exchange(Request(count, BeforeParam(CursorAt(h, k))), Batch(h[k..end]));
      && (Continues(ex) ==>
            Paginate(up, limit, h[..k], CursorAt(h, k), fuel).outcome
            == Paginate(up, limit, h[..end], CursorAt(h, end), fuel - 1).outcome)
      && (!Continues(ex) ==> Paginate(up, limit, h[..k], CursorAt(h, k), fuel).outcome == Ok(h[..end]))
  {
    var count := PageSize(limit, k).value;
    var end := Min(k + count, |h|);
    assert |h[..k]| == k;
    assert up(Request(count, BeforeParam(CursorAt(h, k)))) == Batch(h[k..end]);
    Step(up, limit, h[..k], CursorAt(h, k), fuel);
    assert h[..k] + h[k..end] == h[..end];
  }

  /** A full page moves the state on by `count` messages. */
  lemma HistoryFullPage(up: Upstream, h: seq<Message>, limit: Option<int>, k: nat, fuel: nat)
    requires Serves(up, h) && k <= |h| && PageSize(limit, k).Some? && fuel > 0
    requires k + PageSize(limit, k).value <= |h|
    ensures HistoryOutcome(up, h, limit, k, fuel)
      == HistoryOutcome(up, h, limit, k + PageSize(limit, k).value, fuel - 1)
  {
    HistoryRound(up, h, limit, k, fuel);
  }

  /** A short or empty page ends the fetch with the whole history. */
  lemma HistoryShortPage(up: Upstream, h: seq<Message>, limit: Option<int>, k: nat, fuel: nat)
    requires Serves(up, h) && k <= |h| && PageSize(limit, k).Some? && fuel > 0
    requires k + PageSize(limit, k).value > |h|
    ensures Paginate(up, limit, h[..k], CursorAt(h, k), fuel).outcome == Ok(h)
  {
    HistoryRound(up, h, limit, k, fuel);
    assert h[..|h|] == h;
  }

  /** Reaching a truthy limit against a history leaves exactly its newest `limit` messages. */
  lemma HistoryAtLimit(up: Upstream, h: seq<Message>, limit: Option<int>, k: nat, fuel: nat)
    requires k <= |h| && PageSize(limit, k).None? && !Negative(limit)
    requires Positive(limit) ==> k <= limit.value
    ensures Paginate(up, limit, h[..k], CursorAt(h, k), fuel).outcome == Ok(Newest(limit, h))
  {
    assert |h[..k]| == k;
    assert k == limit.value;
  }

  /** A page running past the end of the history means the limit, if any, covers all of it. */
  lemma HistoryExhausted(limit: Option<int>, h: seq<Message>, k: nat)
    requires !Negative(limit) && k <= |h| && PageSize(limit, k).Some?
    requires k + PageSize(limit, k).value > |h|
    ensures Newest(limit, h) == h
  {
    if Positive(limit) {
      assert limit.value >= |h|;
      assert Min(limit.value, |h|) == |h|;
    }
    assert h[..|h|] == h;
  }

  /** The rounds that end the fetch: the limit is reached, or a page runs past the
      end of the history. Either way the fetch yields the newest messages allowed. */
  lemma HistoryStops(up: Upstream, h: seq<Message>, limit: Option<int>, k: nat, fuel: nat)
    requires Serves(up, h) && !Negative(limit)
    requires k <= |h| && (Positive(limit) ==> k <= limit.value) && fuel > 0
    requires PageSize(limit, k).Some? ==> k + PageSize(limit, k).value > |h|
    ensures HistoryFetches(up, h, limit, k, fuel)
  {
    if PageSize(limit, k).None? {
      HistoryAtLimit(up, h, limit, k, fuel);
    } else {
      HistoryShortPage(up, h, limit, k, fuel);
      HistoryExhausted(limit, h, k);
    }
  }

  /** A full page moves past at least one message and stays within a positive limit. */
  lemma HistoryAdvance(limit: Option<int>, h: seq<Message>, k: nat)
    requires k <= |h| && (Positive(limit) ==> k <= limit.value)
    requires PageSize(limit, k).Some? && k + PageSize(limit, k).value <= |h|
    ensures k < k + PageSize(limit, k).value <= |h|
    ensures Positive(limit) ==> k + PageSize(limit, k).value <= limit.value
  {
  }

  /** After a full page the fetch is right exactly when it is right from the next state. */
  lemma HistoryFullPageFetches(up: Upstream, h: seq<Message>, limit: Option<int>, k: nat, fuel: nat)
    requires Serves(up, h) && k <= |h| && PageSize(limit, k).Some? && fuel > 0
    requires k + PageSize(limit, k).value <= |h|
    ensures HistoryFetches(up, h, limit, k, fuel)
      == HistoryFetches(up, h, limit, k + PageSize(limit, k).value, fuel - 1)
  {
    HistoryFullPage(up, h, limit, k, fuel);
  }

  /** Fetching from a history, having already taken its newest `k` messages. */
  lemma {:induction false} FetchFromHistoryAt(up: Upstream, h: seq<Message>, limit: Option<int>, k: nat, fuel: nat)
    requires Serves(up, h) && !Negative(limit)
    requires k <= |h| && (Positive(limit) ==> k <= limit.value)
    requires fuel >= |h| - k + 1
    ensures HistoryFetches(up, h, limit, k, fuel)
    decreases fuel, 1
  {
    if PageSize(limit, k).Some? && k + PageSize(limit, k).value <= |h| {
      FetchAfterFullPage(up, h, limit, k, fuel);
    } else {
      HistoryStops(up, h, limit, k, fuel);
    }
  }

  /** The inductive step of `FetchFromHistoryAt`: a full page, then the rest of the fetch. */
  lemma {:induction false} FetchAfterFullPage(up: Upstream, h: seq<Message>, limit: Option<int>, k: nat, fuel: nat)
    requires Serves(up, h) && !Negative(limit)
    requires k <= |h| && (Positive(limit) ==> k <= limit.value)
    requires fuel >= |h| - k + 1
    requires PageSize(limit, k).Some? && k + PageSize(limit, k).value <= |h|
    ensures HistoryFetches(up, h, limit, k, fuel)
    decreases fuel, 0
  {
    HistoryAdvance(limit, h, k);
    FetchFromHistoryAt(up, h, limit, k + PageSize(limit, k).value, fuel - 1);
    HistoryFullPageFetches(up, h, limit, k, fuel);
  }

  /** A fetch from a finite history makes at most `|h| + 1` requests and returns
      exactly the newest messages the limit allows, in arrival order. */
  lemma FetchFromHistory(h: seq<Message>, limit: Option<int>, fuel: nat)
    requires WellIdentified(h) && fuel > |h|
    ensures Fetch(HistoryUpstream(h), limit, fuel).outcome == Ok(Newest(limit, h))
  {
    if !Negative(limit) {
      assert h[..0] == [];
      assert CursorAt(h, 0) == None;
      HistoryServes(h);
      FetchFromHistoryAt(HistoryUpstream(h), h, limit, 0, fuel);
    }
  }
}
