/** The Locate search: paging, the single-page fallback and the probing passes,
    against any server. A server is a function from the position of a request
    in the run and the request to a reply, so every sequence of replies is some
    server. The client refuses a reply that is too long for its request. The log
    of exchanges, with the replies as the client sees them, is kept explicitly. */
module Locate {
  import opened Prelude

  type Id = seq<byte>
  type size = n: nat | n <= 0xFFFF_FFFF_FFFF_FFFF

  const MAX_BATCHES: size := 256
  const MAX_ITEMS: size := 256
  const DEFAULT_RESPONSE_SIZE: size := 1024 * 1024
  const BYTES_PER_ID: size := 4096 // DEFAULT_RESPONSE_SIZE / MAX_ITEMS
  const INT32_MAX: size := 0x7FFF_FFFF

  /** The bytes an id takes in a response at the least: its TTLV header. */
  const ID_BYTES: size := 8

  /** So a page that is received holds at most this many ids. */
  const PAGE_LIMIT: size := 0x20_0000 // MESSAGE_HARD_LIMIT / ID_BYTES

  datatype Request = Request(offset: nat, maxItems: nat, maxResponseSize: nat)
  datatype Reply = Page(ids: seq<Id>, located: Option<int32>) | Failed(code: int)
  datatype Exchange = Exchange(request: Request, reply: Reply)

  type Log = seq<Exchange>
  type Server = (nat, Request) -> Reply

  /** Why a search throws: a request failed or could not be built, or one of the
      three ways in which the fallback finds the list undetermined. */
  datatype Failure = RequestFailed(code: int) | BeyondInt32 | OmitsKnown | TotalNotReached | TooFewDistinct

  datatype Outcome<+T> = Found(value: T) | Threw(failure: Failure) {
    predicate IsFailure() {
      Threw?
    }
    function PropagateFailure<U>(): Outcome<U>
      requires Threw?
    {
      Threw(failure)
    }
    function Extract(): T
      requires Found?
    {
      value
    }
  }

  datatype Answer = Answer(ids: seq<Id>, located: Option<nat>)
  datatype Located = Located(ids: seq<Id>, seen: set<Id>, confirmedComplete: bool)
  datatype Search = Search(ids: seq<Id>, seen: set<Id>, offset: nat, knownTotal: Option<nat>)
  datatype Verdict = GoOn | Stalled | Finished(confirmedComplete: bool)

  function Min(a: nat, b: nat): nat {
    if a < b then a else b
  }

  function Max(a: nat, b: nat): nat {
    if a < b then b else a
  }

  // ---------------------------------------------------------------- the log

  /** What the client makes of a reply: a page of more ids than the response limit
      of the request has room for is refused unread. */
  function Received(reply: Reply, q: Request): Reply {
    if reply.Page? && ID_BYTES * |reply.ids| > Min(q.maxResponseSize, MESSAGE_HARD_LIMIT)
    then Failed(EXCEED_MAX_MESSAGE_SIZE)
    else reply
  }

  ghost predicate Ran(server: Server, log: Log) {
    forall k :: 0 <= k < |log| ==> log[k].reply == Received(server(k, log[k].request), log[k].request)
  }

  /** Every request was answered. */
  ghost predicate NoneFailed(log: Log) {
    forall k :: 0 <= k < |log| ==> log[k].reply.Page?
  }

  lemma AnsweredBefore(before: Log, log: Log)
    requires before <= log
    ensures NoneFailed(log) ==> NoneFailed(before)
    ensures NoneFailed(log) && log != [] ==> log[|log| - 1].reply.Page?
  {
    forall k | 0 <= k < |before| && NoneFailed(log) ensures before[k].reply.Page? {
      assert before[k] == log[k];
    }
  }

  function IdsOf(x: Exchange): seq<Id> {
    if x.reply.Page? then x.reply.ids else []
  }

  /** Every id returned, in order, repeats included. */
  function Returned(log: Log): seq<Id> {
    if log == [] then [] else Returned(log[..|log| - 1]) + IdsOf(log[|log| - 1])
  }

  lemma ReturnedNext(log: Log, x: Exchange)
    ensures Returned(log + [x]) == Returned(log) + IdsOf(x)
  {
  }

  /** Pages are bounded, and so is all that a bounded run returns. */
  lemma {:induction false} ReturnedBound(server: Server, log: Log)
    requires Ran(server, log)
    ensures |Returned(log)| <= PAGE_LIMIT * |log|
    ensures forall k :: 0 <= k < |log| ==> |IdsOf(log[k])| <= PAGE_LIMIT
  {
    if log != [] {
      ReturnedBound(server, log[..|log| - 1]);
    }
  }

  /** Located Items when it is non-negative. */
  function AnswerOf(reply: Reply): Answer
    requires reply.Page?
  {
    Answer(reply.ids, if reply.located.Some? && reply.located.value >= 0 then Some(reply.located.value) else None)
  }

  /** Located Items as a total for the search, when it exceeds its own page. */
  function LocatedTotal(located: Option<nat>, pageCount: nat): Option<nat> {
    if located.Some? && located.value > pageCount then located else None
  }

  /** A total the server told: a Located Items that is more than its own page. */
  function UsableTotal(x: Exchange): Option<nat> {
    if x.reply.Page? && x.reply.located.Some? && x.reply.located.value > |x.reply.ids| then Some(x.reply.located.value)
    else None
  }

  predicate Reached(ids: seq<Id>, total: Option<nat>) {
    total.Some? && |ids| >= total.value
  }

  ghost predicate TotalSeen(log: Log, total: nat) {
    exists k :: 0 <= k < |log| && UsableTotal(log[k]) == Some(total)
  }

  ghost predicate KnownTotal(log: Log, total: Option<nat>) {
    total.Some? ==> TotalSeen(log, total.value)
  }

  /** The latest usable total, of pages that are not empty. */
  function LastTotal(log: Log): Option<nat> {
    if log == [] then None
    else
      var x := log[|log| - 1];
      if IdsOf(x) != [] && UsableTotal(x).Some? then UsableTotal(x) else LastTotal(log[..|log| - 1])
  }

  lemma {:induction false} LastTotalNext(log: Log, x: Exchange)
    ensures LastTotal(log + [x]) == if IdsOf(x) != [] && UsableTotal(x).Some? then UsableTotal(x) else LastTotal(log)
  {
    assert (log + [x])[..|log|] == log;
  }

  lemma {:induction false} LastTotalSeen(log: Log)
    ensures KnownTotal(log, LastTotal(log))
  {
    if log != [] {
      var init, x := log[..|log| - 1], log[|log| - 1];
      LastTotalSeen(init);
      assert log == init + [x];
      TotalKept(init, x, LastTotal(log));
    }
  }

  lemma TotalKept(log: Log, x: Exchange, total: Option<nat>)
    requires KnownTotal(log, total) || UsableTotal(x) == total
    ensures KnownTotal(log + [x], total)
  {
    if total.Some? {
      if UsableTotal(x) == total {
        assert UsableTotal((log + [x])[|log|]) == total;
      } else {
        var k :| 0 <= k < |log| && UsableTotal(log[k]) == Some(total.value);
        assert UsableTotal((log + [x])[k]) == total;
      }
    }
  }

  // ---------------------------------------------------- first distinct ids

  ghost predicate Distinct(s: seq<Id>) {
    forall i, j :: 0 <= i < j < |s| ==> s[i] != s[j]
  }

  function Elements(s: seq<Id>): set<Id> {
    set x | x in s
  }

  /** The first `max` distinct ids of `all`, in the order of first occurrence. */
  function FirstIds(all: seq<Id>, max: nat): seq<Id> {
    if all == [] then []
    else
      var ids, last := FirstIds(all[..|all| - 1], max), all[|all| - 1];
      if |ids| < max && last !in ids then ids + [last] else ids
  }

  lemma FirstIdsNext(all: seq<Id>, id: Id, max: nat)
    ensures FirstIds(all + [id], max) ==
            var ids := FirstIds(all, max); if |ids| < max && id !in ids then ids + [id] else ids
  {
  }

  /** They are distinct, come from `all`, and are all of it unless `max` is reached. */
  lemma {:induction false} FirstIdsAre(all: seq<Id>, max: nat)
    ensures Distinct(FirstIds(all, max)) && |FirstIds(all, max)| <= max && |FirstIds(all, max)| <= |all|
    ensures Elements(FirstIds(all, max)) <= Elements(all)
    ensures |FirstIds(all, max)| < max ==> Elements(FirstIds(all, max)) == Elements(all)
  {
    if all != [] {
      var init, last := all[..|all| - 1], all[|all| - 1];
      FirstIdsAre(init, max);
      assert Elements(all) == Elements(init) + {last};
      assert Elements(FirstIds(init, max) + [last]) == Elements(FirstIds(init, max)) + {last};
    }
  }

  /** All of them, when there are no repeats. */
  lemma {:induction false} FirstIdsOfDistinct(all: seq<Id>, max: nat)
    requires Distinct(all)
    ensures FirstIds(all, max) == all[..Min(|all|, max)]
  {
    if all != [] {
      var init, last := all[..|all| - 1], all[|all| - 1];
      FirstIdsOfDistinct(init, max);
      assert init[..Min(|init|, max)] == all[..Min(|init|, max)];
    }
  }

  /** Going on keeps what was found; every id of the page counts just when the
      page is appended whole. */
  lemma {:induction false} FirstIdsMore(all: seq<Id>, page: seq<Id>, max: nat)
    ensures FirstIds(all, max) <= FirstIds(all + page, max)
    ensures |FirstIds(all + page, max)| - |FirstIds(all, max)| <= |page|
    ensures |FirstIds(all + page, max)| - |FirstIds(all, max)| == |page| ==>
              FirstIds(all + page, max) == FirstIds(all, max) + page
  {
    if page == [] {
      assert all + page == all;
    } else {
      var init, last := page[..|page| - 1], page[|page| - 1];
      FirstIdsMore(all, init, max);
      assert all + page == (all + init) + [last] && page == init + [last];
      FirstIdsNext(all + init, last, max);
    }
  }

  /** The next id of a list of which a prefix is known. */
  lemma FirstIdsOfNext(all: seq<Id>, list: seq<Id>, m: nat, j: nat, max: nat)
    requires Distinct(list) && m <= |list| && FirstIds(all, max) == list[..m]
    requires j < |list| && m <= max && (j <= m || m == max)
    ensures FirstIds(all + [list[j]], max) == list[..if j == m < max then m + 1 else m]
  {
  }

  /** On a slice of a list of which a prefix is known, they are a longer prefix. */
  lemma {:induction false} FirstIdsOfSlice(all: seq<Id>, list: seq<Id>, k: nat, a: nat, b: nat, max: nat)
    requires Distinct(list) && k <= |list| && FirstIds(all, max) == list[..k] && a <= k <= max && a <= b <= |list|
    ensures FirstIds(all + list[a..b], max) == list[..Max(k, Min(b, max))]
    decreases b
  {
    if a == b {
      assert all + list[a..b] == all;
    } else {
      var shorter := all + list[a..b - 1];
      FirstIdsOfSlice(all, list, k, a, b - 1, max);
      FirstIdsOfNext(shorter, list, Max(k, Min(b - 1, max)), b - 1, max);
      SliceNext(all, list, a, b);
    }
  }

  lemma SliceNext(all: seq<Id>, list: seq<Id>, a: nat, b: nat)
    requires a < b <= |list|
    ensures all + list[a..b] == (all + list[a..b - 1]) + [list[b - 1]]
  {
  }

  lemma {:induction false} DistinctCount(s: seq<Id>)
    requires Distinct(s)
    ensures |Elements(s)| == |s|
  {
    if s != [] {
      var init, last := s[..|s| - 1], s[|s| - 1];
      DistinctCount(init);
      assert Elements(s) == Elements(init) + {last};
    }
  }

  /** Ids kept up to date with the log. */
  ghost predicate Collected(server: Server, maxIds: nat, ids: seq<Id>, seen: set<Id>, log: Log) {
    Ran(server, log) && NoneFailed(log) && ids == FirstIds(Returned(log), maxIds) && seen == Elements(ids)
  }

  /** One more id of the page, and none once the bound is reached. */
  lemma NextOfPage(all: seq<Id>, page: seq<Id>, i: nat, max: nat)
    requires i < |page|
    ensures var ids := FirstIds(all + page[..i], max);
            && |ids| <= max
            && FirstIds(all + page[..i + 1], max) == (if |ids| < max && page[i] !in ids then ids + [page[i]] else ids)
            && (|ids| == max ==> FirstIds(all + page, max) == ids)
  {
    var before := all + page[..i];
    FirstIdsAre(before, max);
    FirstIdsNext(before, page[i], max);
    PageSplit(all, page, i);
    NoRoom(before, page[i..], max);
  }

  lemma PageSplit(all: seq<Id>, page: seq<Id>, i: nat)
    requires i < |page|
    ensures all + page[..i + 1] == (all + page[..i]) + [page[i]] && all + page == (all + page[..i]) + page[i..]
  {
  }

  lemma NoRoom(all: seq<Id>, page: seq<Id>, max: nat)
    ensures |FirstIds(all, max)| == max ==> FirstIds(all + page, max) == FirstIds(all, max)
  {
    FirstIdsAre(all + page, max);
    FirstIdsMore(all, page, max);
  }

  lemma ElementsNext(s: seq<Id>, id: Id)
    ensures Elements(s + [id]) == Elements(s) + {id}
  {
  }

  /** Appends the ids of a page not seen yet, up to `maxIds`. `all` is what was
      returned before. */
  method MergeNewIds(ids: seq<Id>, seen: set<Id>, page: seq<Id>, maxIds: nat, ghost all: seq<Id>)
    returns (ids': seq<Id>, seen': set<Id>, addedAny: bool)
    requires ids == FirstIds(all, maxIds) && seen == Elements(ids)
    ensures ids' == FirstIds(all + page, maxIds) && seen' == Elements(ids')
    ensures addedAny <==> ids' != ids
  {
    ids', seen', addedAny := ids, seen, false;
    assert all + page[..0] == all;
    for i := 0 to |page|
      invariant ids' == FirstIds(all + page[..i], maxIds) && seen' == Elements(ids')
      invariant |ids| <= |ids'| && (addedAny <==> |ids'| > |ids|) && (!addedAny ==> ids' == ids)
    {
      NextOfPage(all, page, i, maxIds);
      if |ids'| >= maxIds {
        return;
      }
      if page[i] !in seen' {
        ElementsNext(ids', page[i]);
        ids', seen', addedAny := ids' + [page[i]], seen' + {page[i]}, true;
      }
    }
    assert page[..|page|] == page;
  }

  // ---------------------------------------------------------- one request

  /** The last request was refused with the failure's code. */
  ghost predicate Refused(f: Failure, log: Log) {
    f.RequestFailed? && log != [] && log[|log| - 1].reply == Failed(f.code)
  }

  /** One Locate: the page at `offset`, with the next reply of the server. */
  method LocatePage(server: Server, log: Log, offset: nat, pageSize: size, maxResponseSize: nat)
    returns (r: Outcome<Answer>, log': Log)
    requires Ran(server, log)
    ensures Ran(server, log') && |log| <= |log'| <= |log| + 1
    ensures pageSize > 0 ==> (log' == log <==> pageSize > INT32_MAX || offset > INT32_MAX)
    ensures pageSize == 0 ==> r == Found(Answer([], None)) && log' == log
    ensures pageSize > 0 && log' == log ==> r == Threw(BeyondInt32)
    ensures log' != log ==>
              var request := Request(offset, pageSize, maxResponseSize);
              var reply := Received(server(|log|, request), request);
              && log' == log + [Exchange(request, reply)]
              && r == if reply.Page? then Found(AnswerOf(reply)) else Threw(RequestFailed(reply.code))
  {
    log' := log;
    if pageSize == 0 {
      return Found(Answer([], None)), log;
    }
    if pageSize > INT32_MAX || offset > INT32_MAX {
      return Threw(BeyondInt32), log;
    }
    var request := Request(offset, pageSize, maxResponseSize);
    var reply := Received(server(|log|, request), request);
    log' := log + [Exchange(request, reply)];
    match reply
    case Failed(code) => r := Threw(RequestFailed(code));
    case Page(_, _) => r := Found(AnswerOf(reply));
  }

  /** The response-size limit of a page: its ids' allowance, between the usual
      default and the hard limit, computed without a product that overflows. */
  function ResponseSizeLimit(pageSize: size): (limit: size)
    ensures limit == Min(MESSAGE_HARD_LIMIT, Max(DEFAULT_RESPONSE_SIZE, pageSize as int * BYTES_PER_ID))
  {
    if pageSize > MESSAGE_HARD_LIMIT / BYTES_PER_ID then MESSAGE_HARD_LIMIT
    else Max(pageSize * BYTES_PER_ID, DEFAULT_RESPONSE_SIZE)
  }

  // ------------------------------------------------------ what is promised

  /** Each request starts where the pages before it end, those pages hold no
      repeats, and the request asks for no more than is still wanted. */
  ghost predicate CursorAt(before: Log, request: Request, maxIds: nat) {
    var got := Returned(before);
    Distinct(got) && |got| < maxIds && request == Request(|got|, Min(maxIds - |got|, 256), 0x10_0000)
  }

  ghost predicate Cursor(log: Log, maxIds: nat) {
    forall k :: 0 <= k < |log| ==> CursorAt(log[..k], log[k].request, maxIds)
  }

  lemma CursorNext(log: Log, x: Exchange, maxIds: nat)
    requires Cursor(log, maxIds) && CursorAt(log, x.request, maxIds)
    ensures Cursor(log + [x], maxIds)
  {
    forall k | 0 <= k < |log + [x]| ensures CursorAt((log + [x])[..k], (log + [x])[k].request, maxIds) {
      assert (log + [x])[..k] == if k < |log| then log[..k] else log;
    }
  }

  ghost predicate ShortPage(x: Exchange) {
    x.reply.Page? && |x.reply.ids| < x.request.maxItems
  }

  /** The server's own data says the list is whole: a usable total is reached,
      or one short page at offset 0 holds exactly these ids. */
  ghost predicate Confirms(ids: seq<Id>, log: Log) {
    || (exists total :: TotalSeen(log, total) && |ids| >= total)
    || (log != [] && var x := log[|log| - 1];
        ShortPage(x) && x.request.offset == 0 && Elements(ids) == Elements(x.reply.ids))
  }

  /** A server that answers from one list, honouring offsets or ignoring them. */
  ghost predicate FixedList(server: Server, list: seq<Id>, honours: bool) {
    && Distinct(list)
    && forall n: nat, q: Request {:trigger Matches(server(n, q), q, list, honours)} ::
         Matches(server(n, q), q, list, honours)
  }

  function Start(list: seq<Id>, honours: bool, q: Request): nat {
    if honours then Min(q.offset, |list|) else 0
  }

  function End(list: seq<Id>, honours: bool, q: Request): nat {
    Min(Start(list, honours, q) + q.maxItems, |list|)
  }

  ghost predicate Matches(reply: Reply, q: Request, list: seq<Id>, honours: bool) {
    var a, b := Start(list, honours, q), End(list, honours, q);
    reply.Page? ==>
      && reply.ids == list[a..b]
      && (reply.located.None? || reply.located.value == |list| || reply.located.value == b - a)
  }

  ghost predicate OnList(list: seq<Id>, ids: seq<Id>, knownTotal: Option<nat>) {
    ids <= list && (knownTotal.Some? ==> knownTotal.value == |list|)
  }

  /** A page of a fixed list extends a known prefix. */
  lemma ListStep(list: seq<Id>, honours: bool, log: Log, x: Exchange, ids: seq<Id>, maxIds: nat)
    requires Distinct(list) && x.reply.Page? && Matches(x.reply, x.request, list, honours)
    requires ids == FirstIds(Returned(log), maxIds) && ids <= list && x.request.offset <= |ids| <= maxIds
    ensures UsableTotal(x).None? || UsableTotal(x).value == |list|
    ensures FirstIds(Returned(log + [x]), maxIds) == list[..Max(|ids|, Min(End(list, honours, x.request), maxIds))]
  {
    ReturnedNext(log, x);
    assert ids == list[..|ids|];
    FirstIdsOfSlice(Returned(log), list, |ids|, Start(list, honours, x.request), End(list, honours, x.request), maxIds);
  }

  // ----------------------------------------------------------------- paging

  /** The last page ends paging: it is empty, the bound or the total is reached, an
      id is repeated, or it is short and no total was told. */
  ghost predicate PageEnds(log: Log, maxIds: nat)
    requires log != []
  {
    var x, ids := log[|log| - 1], FirstIds(Returned(log), maxIds);
    || IdsOf(x) == [] || |ids| >= maxIds || Reached(ids, LastTotal(log)) || !Distinct(Returned(log))
    || (ShortPage(x) && LastTotal(log).None?)
  }

  /** None of the first `n` pages ends it. */
  ghost predicate Followed(log: Log, n: int, maxIds: nat) {
    forall k :: 0 < k <= n && k <= |log| ==> !PageEnds(log[..k], maxIds)
  }

  lemma FollowedNext(log: Log, x: Exchange, maxIds: nat)
    requires Followed(log, |log|, maxIds)
    ensures Followed(log + [x], |log|, maxIds)
    ensures !PageEnds(log + [x], maxIds) ==> Followed(log + [x], |log| + 1, maxIds)
  {
    forall k | 0 < k <= |log| + 1 ensures (log + [x])[..k] == if k <= |log| then log[..k] else log + [x] {
    }
  }

  /** What every iteration of the paging loop finds: the ids are the pages put
      end to end, and the offset is their length. */
  ghost predicate Unstalled(server: Server, maxIds: nat, s: Search, log: Log) {
    && Collected(server, maxIds, s.ids, s.seen, log) && Cursor(log, maxIds) && Followed(log, |log|, maxIds)
    && s.ids == Returned(log) && s.offset == |s.ids| <= maxIds
    && s.knownTotal == LastTotal(log) && (s.knownTotal.Some? ==> |s.ids| < s.knownTotal.value)
  }

  /** Paging cannot tell: neither the bound nor a total is reached, and an id was
      repeated, a total calls for more than an empty page, or no requests are left. */
  ghost predicate Stalls(log: Log, maxIds: nat) {
    && log != [] && |FirstIds(Returned(log), maxIds)| < maxIds
    && !Reached(FirstIds(Returned(log), maxIds), LastTotal(log))
    && var x := log[|log| - 1];
       || !Distinct(Returned(log))
       || (IdsOf(x) == [] && LastTotal(log).Some?)
       || (|log| == 256 && !PageEnds(log, maxIds))
  }

  /** Paging can tell that the list is whole: a total is reached, or the first page
      is short, with ids none of which repeats, and there is no total. */
  ghost predicate ConfirmedByPaging(log: Log, maxIds: nat) {
    || Reached(FirstIds(Returned(log), maxIds), LastTotal(log))
    || (&& |log| == 1 && IdsOf(log[0]) != [] && Distinct(IdsOf(log[0])) && ShortPage(log[0])
        && LastTotal(log).None? && |IdsOf(log[0])| < maxIds)
  }

  /** How paging ends, at the first page that ends it: it stalls, or it finishes,
      with a confirmation exactly if it can tell. */
  ghost predicate PagingResult(server: Server, maxIds: nat, s: Search, v: Verdict, log: Log) {
    && Collected(server, maxIds, s.ids, s.seen, log) && s.knownTotal == LastTotal(log)
    && Followed(log, |log| - 1, maxIds)
    && match v
       case GoOn => false
       case Stalled => Stalls(log, maxIds)
       case Finished(confirmed) =>
         && log != [] && !Stalls(log, maxIds) && PageEnds(log, maxIds)
         && (confirmed <==> ConfirmedByPaging(log, maxIds)) && (confirmed ==> Confirms(s.ids, log))
         && (!confirmed && |s.ids| < maxIds ==> ShortPage(log[|log| - 1]) && s.knownTotal.None?)
  }

  /** On a fixed list, after `n` requests: paging goes on after full pages only, a
      server that ignores offsets stalls it at the second page, one that honours
      them when no requests are left. */
  ghost predicate PagingOnList(list: seq<Id>, honours: bool, maxIds: nat, s: Search, v: Verdict, n: nat) {
    && OnList(list, s.ids, s.knownTotal)
    && match v
       case GoOn => FullPages(honours, s, n)
       case Stalled => |s.ids| == MAX_ITEMS || |s.ids| == MAX_BATCHES * MAX_ITEMS
       case Finished(_) => s.ids == list[..Min(maxIds, |list|)] && |s.ids| <= MAX_BATCHES * MAX_ITEMS
  }

  ghost predicate FullPages(honours: bool, s: Search, n: nat) {
    |s.ids| == MAX_ITEMS * n && (honours || n <= 1)
  }

  /** The decision after a page of `count` ids that brought `known` ids to `n`. */
  function Decide(maxIds: nat, n: nat, known: nat, count: nat, pageSize: nat, offset: nat, total: Option<nat>,
                  firstPage: bool): Verdict {
    if total.Some? && n >= total.value then Finished(true)
    else if n >= maxIds then Finished(false)
    else if n - known < count then Stalled
    else if total.Some? && offset >= total.value then Stalled
    else if count < pageSize && total.None? then Finished(firstPage)
    else GoOn
  }

  /** The loop goes on only if the page was all new, and stops with a confirmation
      only for a reason the server gave. */
  lemma Decided(maxIds: nat, n: nat, known: nat, count: nat, pageSize: nat, total: Option<nat>)
    requires n - known <= count
    ensures match Decide(maxIds, n, known, count, pageSize, known + count, total, known == 0)
            case GoOn => n == known + count < maxIds && (if total.Some? then n < total.value else count >= pageSize)
            case Stalled => n < maxIds && n < known + count && (total.Some? ==> n < total.value)
            case Finished(confirmed) =>
              && (confirmed <==>
                  || (total.Some? && n >= total.value)
                  || (known == 0 && n == count < pageSize && n < maxIds && total.None?))
              && (!confirmed && n < maxIds ==> n == known + count && count < pageSize && total.None?)
  {
  }

  /** On a fixed list, after `m` full pages, it finishes only with all that is
      wanted of the list, goes on after another full page, and stalls only at the
      second page of a server that ignores offsets. */
  lemma DecidedOnList(maxIds: nat, n: nat, m: nat, list: seq<Id>, honours: bool, q: Request, total: Option<nat>)
    requires var known := MAX_ITEMS * m;
             && known < maxIds && known <= |list| && m < MAX_BATCHES && (honours || m <= 1)
             && q.offset == known && q.maxItems == Min(maxIds - known, MAX_ITEMS)
             && n == Max(known, Min(End(list, honours, q), maxIds)) && (total.Some? ==> total.value == |list|)
    requires Start(list, honours, q) < End(list, honours, q)
    ensures var known, count := MAX_ITEMS * m, End(list, honours, q) - Start(list, honours, q);
            match Decide(maxIds, n, known, count, q.maxItems, known + count, total, known == 0)
            case GoOn => n == MAX_ITEMS * (m + 1) && (honours || m == 0)
            case Stalled => n == MAX_ITEMS
            case Finished(_) => n == Min(maxIds, |list|) && n <= MAX_BATCHES * MAX_ITEMS
  {
  }

  lemma OnePageConfirms(log: Log, x: Exchange, ids: seq<Id>, maxIds: nat)
    requires Returned(log) == [] && ShortPage(x) && x.request.offset == 0
    requires ids == FirstIds(Returned(log + [x]), maxIds) && |ids| == |x.reply.ids|
    ensures Confirms(ids, log + [x])
  {
    ReturnedNext(log, x);
    assert [] + x.reply.ids == x.reply.ids;
    FirstIdsMore([], x.reply.ids, maxIds);
  }

  /** One page that is not empty, merged. */
  ghost predicate Merged(server: Server, maxIds: nat, s: Search, log: Log, x: Exchange, s': Search) {
    && Unstalled(server, maxIds, s, log) && CursorAt(log, x.request, maxIds) && x.reply.Page? && x.reply.ids != []
    && Collected(server, maxIds, s'.ids, s'.seen, log + [x])
    && s'.offset == s.offset + |x.reply.ids|
    && s'.knownTotal == if UsableTotal(x).Some? then UsableTotal(x) else s.knownTotal
  }

  function Judge(maxIds: nat, s: Search, x: Exchange, s': Search): Verdict {
    Decide(maxIds, |s'.ids|, |s.ids|, |IdsOf(x)|, x.request.maxItems, s'.offset, s'.knownTotal, s.offset == 0)
  }

  /** The branch for an offset that has reached the total is dead: without
      repeats the ids have reached it too, and that was looked at first. */
  lemma TotalBranchIsDead(server: Server, maxIds: nat, s: Search, log: Log, x: Exchange, s': Search)
    requires Merged(server, maxIds, s, log, x, s') && |s'.ids| - |s.ids| >= |x.reply.ids|
    requires s'.knownTotal.Some? && s'.offset >= s'.knownTotal.value
    ensures Judge(maxIds, s, x, s') == Finished(true)
  {
  }

  /** What an iteration leaves behind, for any server. */
  ghost predicate Step(server: Server, maxIds: nat, s: Search, v: Verdict, log: Log) {
    if v.GoOn? then Unstalled(server, maxIds, s, log) else PagingResult(server, maxIds, s, v, log)
  }

  lemma Judged(server: Server, maxIds: nat, s: Search, log: Log, x: Exchange, s': Search)
    requires Merged(server, maxIds, s, log, x, s')
    ensures Step(server, maxIds, s', Judge(maxIds, s, x, s'), log + [x])
  {
    match Judge(maxIds, s, x, s')
    case GoOn => JudgedGoOn(server, maxIds, s, log, x, s');
    case Stalled => JudgedStalled(server, maxIds, s, log, x, s');
    case Finished(confirmed) => JudgedFinished(server, maxIds, s, log, x, s', confirmed);
  }

  lemma JudgedGoOn(server: Server, maxIds: nat, s: Search, log: Log, x: Exchange, s': Search)
    requires Merged(server, maxIds, s, log, x, s') && Judge(maxIds, s, x, s') == GoOn
    ensures Unstalled(server, maxIds, s', log + [x])
  {
    AllAreNew(server, maxIds, s, log, x, s');
    CursorNext(log, x, maxIds);
    LastTotalNext(log, x);
    NotTheEnd(log, x, s'.ids, s'.knownTotal, maxIds);
    FollowedNext(log, x, maxIds);
  }

  lemma NotTheEnd(log: Log, x: Exchange, ids: seq<Id>, total: Option<nat>, maxIds: nat)
    requires x.reply.Page? && x.reply.ids != [] && LastTotal(log + [x]) == total
    requires ids == Returned(log + [x]) == FirstIds(Returned(log + [x]), maxIds) && Distinct(ids) && |ids| < maxIds
    requires if total.Some? then |ids| < total.value else |x.reply.ids| >= x.request.maxItems
    ensures !PageEnds(log + [x], maxIds)
  {
  }

  lemma AllAreNew(server: Server, maxIds: nat, s: Search, log: Log, x: Exchange, s': Search)
    requires Merged(server, maxIds, s, log, x, s') && Judge(maxIds, s, x, s') == GoOn
    ensures s'.ids == Returned(log + [x]) && |s'.ids| == |s.ids| + |x.reply.ids| < maxIds && Distinct(s'.ids)
    ensures if s'.knownTotal.Some? then |s'.ids| < s'.knownTotal.value else |x.reply.ids| >= x.request.maxItems
  {
    ReturnedNext(log, x);
    FirstIdsMore(Returned(log), x.reply.ids, maxIds);
    FirstIdsAre(Returned(log + [x]), maxIds);
    Decided(maxIds, |s'.ids|, |s.ids|, |x.reply.ids|, x.request.maxItems, s'.knownTotal);
  }

  lemma JudgedStalled(server: Server, maxIds: nat, s: Search, log: Log, x: Exchange, s': Search)
    requires Merged(server, maxIds, s, log, x, s') && Judge(maxIds, s, x, s') == Stalled
    ensures PagingResult(server, maxIds, s', Stalled, log + [x])
  {
    ReturnedNext(log, x);
    LastTotalNext(log, x);
    FirstIdsMore(Returned(log), x.reply.ids, maxIds);
    Decided(maxIds, |s'.ids|, |s.ids|, |x.reply.ids|, x.request.maxItems, s'.knownTotal);
    Repeats(Returned(log + [x]), maxIds);
    FollowedNext(log, x, maxIds);
  }

  lemma JudgedFinished(server: Server, maxIds: nat, s: Search, log: Log, x: Exchange, s': Search, confirmed: bool)
    requires Merged(server, maxIds, s, log, x, s') && Judge(maxIds, s, x, s') == Finished(confirmed)
    ensures PagingResult(server, maxIds, s', Finished(confirmed), log + [x])
  {
    LastTotalNext(log, x);
    FollowedNext(log, x, maxIds);
    FinishedEnds(server, maxIds, s, log, x, s', confirmed);
    FinishedConfirms(server, maxIds, s, log, x, s', confirmed);
  }

  lemma FinishedEnds(server: Server, maxIds: nat, s: Search, log: Log, x: Exchange, s': Search, confirmed: bool)
    requires Merged(server, maxIds, s, log, x, s') && Judge(maxIds, s, x, s') == Finished(confirmed)
    ensures !Stalls(log + [x], maxIds) && PageEnds(log + [x], maxIds)
    ensures !confirmed && |s'.ids| < maxIds ==> ShortPage(x) && s'.knownTotal.None?
  {
    ReturnedNext(log, x);
    LastTotalNext(log, x);
    FirstIdsMore(Returned(log), x.reply.ids, maxIds);
    FirstIdsAre(Returned(log + [x]), maxIds);
    Decided(maxIds, |s'.ids|, |s.ids|, |x.reply.ids|, x.request.maxItems, s'.knownTotal);
  }

  lemma FinishedConfirms(server: Server, maxIds: nat, s: Search, log: Log, x: Exchange, s': Search, confirmed: bool)
    requires Merged(server, maxIds, s, log, x, s') && Judge(maxIds, s, x, s') == Finished(confirmed)
    ensures (confirmed <==> ConfirmedByPaging(log + [x], maxIds)) && (confirmed ==> Confirms(s'.ids, log + [x]))
  {
    ReturnedNext(log, x);
    LastTotalNext(log, x);
    FirstIdsMore(Returned(log), x.reply.ids, maxIds);
    FirstIdsAre(Returned(log + [x]), maxIds);
    Decided(maxIds, |s'.ids|, |s.ids|, |x.reply.ids|, x.request.maxItems, s'.knownTotal);
    ConfirmedExactly(log, x, maxIds);
    if confirmed && s'.knownTotal.Some? && |s'.ids| >= s'.knownTotal.value {
      LastTotalSeen(log + [x]);
    } else if confirmed {
      OnePageConfirms(log, x, s'.ids, maxIds);
    }
  }

  lemma ConfirmedExactly(log: Log, x: Exchange, maxIds: nat)
    requires Followed(log, |log|, maxIds) && IdsOf(x) != []
    ensures var ids := FirstIds(Returned(log + [x]), maxIds);
            ConfirmedByPaging(log + [x], maxIds) <==>
            || Reached(ids, LastTotal(log + [x]))
            || (&& Returned(log) == [] && |ids| == |IdsOf(x)| < maxIds && ShortPage(x) && LastTotal(log + [x]).None?)
  {
    FirstPage(log, maxIds);
    if log == [] {
      assert log + [x] == [x] && Returned([x]) == Returned([]) + IdsOf(x) == IdsOf(x);
      FirstIdsMore([], IdsOf(x), maxIds);
      FirstIdsAre(IdsOf(x), maxIds);
      assert [] + IdsOf(x) == IdsOf(x);
      if Distinct(IdsOf(x)) {
        FirstIdsOfDistinct(IdsOf(x), maxIds);
      }
    }
  }

  /** Nothing was returned only before the first page. */
  lemma FirstPage(log: Log, maxIds: nat)
    requires Followed(log, |log|, maxIds)
    ensures Returned(log) == [] <==> log == []
  {
    if log != [] {
      assert log[..|log|] == log;
    }
  }

  /** Ids that are fewer than returned, and than wanted, show a repeat. */
  lemma Repeats(all: seq<Id>, maxIds: nat)
    requires |FirstIds(all, maxIds)| < |all| && |FirstIds(all, maxIds)| < maxIds
    ensures !Distinct(all)
  {
    if Distinct(all) {
      FirstIdsOfDistinct(all, maxIds);
    }
  }

  lemma JudgedOnList(maxIds: nat, s: Search, log: Log, x: Exchange, s': Search, list: seq<Id>, honours: bool)
    requires s.ids == FirstIds(Returned(log), maxIds) && s'.ids == FirstIds(Returned(log + [x]), maxIds)
    requires |s.ids| < maxIds
    requires x.request == Request(|s.ids|, Min(maxIds - |s.ids|, MAX_ITEMS), DEFAULT_RESPONSE_SIZE)
    requires s.offset == |s.ids| && x.reply.Page? && x.reply.ids != [] && s'.offset == s.offset + |x.reply.ids|
    requires s'.knownTotal == (if UsableTotal(x).Some? then UsableTotal(x) else s.knownTotal)
    requires |log| < MAX_BATCHES && PageOfList(list, honours, x, s, |log|)
    ensures PagingOnList(list, honours, maxIds, s', Judge(maxIds, s, x, s'), |log| + 1)
  {
    ListStep(list, honours, log, x, s.ids, maxIds);
    assert |x.reply.ids| == End(list, honours, x.request) - Start(list, honours, x.request);
    VerdictOnList(maxIds, s, x, s', list, honours, |log|);
  }

  lemma VerdictOnList(maxIds: nat, s: Search, x: Exchange, s': Search, list: seq<Id>, honours: bool, m: nat)
    requires s.offset == |s.ids| == MAX_ITEMS * m < maxIds && |s.ids| <= |list|
    requires m < MAX_BATCHES && (honours || m <= 1)
    requires x.request == Request(|s.ids|, Min(maxIds - |s.ids|, MAX_ITEMS), DEFAULT_RESPONSE_SIZE)
    requires x.reply.Page? && s'.offset == s.offset + |x.reply.ids|
    requires 0 < |x.reply.ids| == End(list, honours, x.request) - Start(list, honours, x.request)
    requires s'.ids == list[..Max(|s.ids|, Min(End(list, honours, x.request), maxIds))]
    requires s'.knownTotal.Some? ==> s'.knownTotal.value == |list|
    ensures PagingOnList(list, honours, maxIds, s', Judge(maxIds, s, x, s'), m + 1)
  {
    DecidedOnList(maxIds, |s'.ids|, m, list, honours, x.request, s'.knownTotal);
  }

  lemma EmptyPage(server: Server, maxIds: nat, s: Search, log: Log, x: Exchange)
    requires Unstalled(server, maxIds, s, log) && CursorAt(log, x.request, maxIds) && x.reply.Page? && x.reply.ids == []
    requires Ran(server, log + [x])
    ensures var stalled := s.knownTotal.Some? && |s.ids| < s.knownTotal.value;
            PagingResult(server, maxIds, s, if stalled then Stalled else Finished(false), log + [x])
  {
    NothingReturned(log, x, maxIds);
    FollowedNext(log, x, maxIds);
    FirstIdsAre(Returned(log), maxIds);
  }

  lemma NothingReturned(log: Log, x: Exchange, maxIds: nat)
    requires x.reply.Page? && x.reply.ids == []
    ensures Returned(log + [x]) == Returned(log) && LastTotal(log + [x]) == LastTotal(log)
    ensures PageEnds(log + [x], maxIds) && (log + [x])[|log|] == x && IdsOf(x) == []
  {
    ReturnedNext(log, x);
    LastTotalNext(log, x);
    assert Returned(log) + [] == Returned(log);
  }

  lemma EmptyPageOfList(ids: seq<Id>, q: Request, reply: Reply, list: seq<Id>, honours: bool)
    requires ids <= list && q.offset == |ids| && q.maxItems > 0
    requires reply.Page? && reply.ids == [] && Matches(reply, q, list, honours)
    ensures ids == list
  {
  }

  /** A page of a fixed list, of which `n` full pages are known. */
  ghost predicate PageOfList(list: seq<Id>, honours: bool, x: Exchange, s: Search, n: nat) {
    && Distinct(list) && Matches(x.reply, x.request, list, honours)
    && OnList(list, s.ids, s.knownTotal) && FullPages(honours, s, n)
  }

  /** The rest of an iteration after an empty page: with a total above what has been
      collected the search stalls, and otherwise nothing is left to ask for. */
  method AtEnd(server: Server, maxIds: size, s: Search, ghost log: Log, x: Exchange, ghost list: seq<Id>,
               ghost honours: bool)
    returns (v: Verdict)
    requires Unstalled(server, maxIds, s, log) && CursorAt(log, x.request, maxIds) && Ran(server, log + [x])
    requires x.reply.Page? && x.reply.ids == []
    ensures !v.GoOn? && Step(server, maxIds, s, v, log + [x])
    ensures |log| < MAX_BATCHES && PageOfList(list, honours, x, s, |log|) ==>
              PagingOnList(list, honours, maxIds, s, v, |log| + 1)
  {
    EmptyPage(server, maxIds, s, log, x);
    if PageOfList(list, honours, x, s, |log|) {
      EmptyPageOfList(s.ids, x.request, x.reply, list, honours);
    }
    v := if s.knownTotal.Some? && |s.ids| < s.knownTotal.value then Stalled else Finished(false);
  }

  /** The rest of an iteration after a page with ids. */
  method Absorb(server: Server, maxIds: size, s: Search, ghost log: Log, x: Exchange, ghost list: seq<Id>,
                ghost honours: bool)
    returns (v: Verdict, s': Search)
    requires Unstalled(server, maxIds, s, log) && CursorAt(log, x.request, maxIds) && Ran(server, log + [x])
    requires x.reply.Page? && x.reply.ids != []
    ensures Step(server, maxIds, s', v, log + [x])
    ensures |log| < MAX_BATCHES && PageOfList(list, honours, x, s, |log|) ==>
              PagingOnList(list, honours, maxIds, s', v, |log| + 1)
  {
    s' := Merge(server, maxIds, s, log, x);
    Judged(server, maxIds, s, log, x, s');
    JudgedToo(server, maxIds, s, log, x, s', list, honours);
    v := Judge(maxIds, s, x, s');
  }

  lemma JudgedToo(server: Server, maxIds: nat, s: Search, log: Log, x: Exchange, s': Search, list: seq<Id>,
                  honours: bool)
    requires Merged(server, maxIds, s, log, x, s')
    ensures |log| < MAX_BATCHES && PageOfList(list, honours, x, s, |log|) ==>
              PagingOnList(list, honours, maxIds, s', Judge(maxIds, s, x, s'), |log| + 1)
  {
    if |log| < MAX_BATCHES && PageOfList(list, honours, x, s, |log|) {
      JudgedOnList(maxIds, s, log, x, s', list, honours);
    }
  }

  /** The page's ids, its length and its total go into the search. */
  method Merge(server: Server, maxIds: size, s: Search, ghost log: Log, x: Exchange) returns (s': Search)
    requires Unstalled(server, maxIds, s, log) && CursorAt(log, x.request, maxIds) && Ran(server, log + [x])
    requires x.reply.Page? && x.reply.ids != []
    ensures Merged(server, maxIds, s, log, x, s')
  {
    var got := AnswerOf(x.reply);
    ReturnedNext(log, x);
    var ids, seen, _ := MergeNewIds(s.ids, s.seen, got.ids, maxIds, Returned(log));
    var total := LocatedTotal(got.located, |got.ids|);
    s' := Search(ids, seen, s.offset + |got.ids|, if total.Some? then total else s.knownTotal);
  }

  /** One iteration of the paging loop. */
  method NextPage(server: Server, maxIds: size, s: Search, log: Log, ghost list: seq<Id>, ghost honours: bool)
    returns (r: Outcome<Verdict>, s': Search, log': Log)
    requires Unstalled(server, maxIds, s, log) && |s.ids| < maxIds && |log| < MAX_BATCHES
    requires FixedList(server, list, honours) ==> PagingOnList(list, honours, maxIds, s, GoOn, |log|)
    ensures Ran(server, log') && |log'| == |log| + 1 && Cursor(log', maxIds) && Followed(log', |log|, maxIds)
    ensures r.Threw? ==> Refused(r.failure, log')
    ensures r.Found? ==> Step(server, maxIds, s', r.value, log')
    ensures r.Found? && FixedList(server, list, honours) ==>
              PagingOnList(list, honours, maxIds, s', r.value, |log'|)
  {
    s' := s;
    var answer;
    answer, log' := FetchNext(server, maxIds, s, log);
    if answer.Threw? {
      return Threw(answer.failure), s, log';
    }
    var x, v := answer.value, GoOn;
    assert FixedList(server, list, honours) ==> Matches(server(|log|, x.request), x.request, list, honours);
    v, s' := TakePage(server, maxIds, s, log, x, list, honours);
    r := Found(v);
  }

  /** The request of an iteration, and its reply. */
  method FetchNext(server: Server, maxIds: size, s: Search, log: Log) returns (r: Outcome<Exchange>, log': Log)
    requires Unstalled(server, maxIds, s, log) && |s.ids| < maxIds && |log| < MAX_BATCHES
    ensures Ran(server, log') && |log'| == |log| + 1 && log' == log + [log'[|log|]]
    ensures CursorAt(log, log'[|log|].request, maxIds) && Cursor(log', maxIds) && Followed(log', |log|, maxIds)
    ensures if r.Threw? then Refused(r.failure, log') else r.value == log'[|log|] && r.value.reply.Page?
  {
    var pageSize: size := Min(maxIds - |s.ids|, MAX_ITEMS);
    var answer;
    OffsetInRange(server, maxIds, s, log);
    answer, log' := LocatePage(server, log, s.offset, pageSize, DEFAULT_RESPONSE_SIZE);
    var x := log'[|log|];
    CursorNext(log, x, maxIds);
    FollowedNext(log, x, maxIds);
    if answer.Threw? {
      return Threw(answer.failure), log';
    }
    return Found(x), log';
  }

  /** What an iteration makes of its page. */
  method TakePage(server: Server, maxIds: size, s: Search, ghost log: Log, x: Exchange, ghost list: seq<Id>,
                  ghost honours: bool)
    returns (v: Verdict, s': Search)
    requires Unstalled(server, maxIds, s, log) && CursorAt(log, x.request, maxIds) && Ran(server, log + [x])
    requires x.reply.Page?
    ensures Step(server, maxIds, s', v, log + [x])
    ensures |log| < MAX_BATCHES && PageOfList(list, honours, x, s, |log|) ==>
              PagingOnList(list, honours, maxIds, s', v, |log| + 1)
  {
    s' := s;
    if x.reply.ids == [] {
      v := AtEnd(server, maxIds, s, log, x, list, honours);
    } else {
      v, s' := Absorb(server, maxIds, s, log, x, list, honours);
    }
  }

  /** Paging never needs an offset beyond an int32, and its ids are distinct. */
  lemma OffsetInRange(server: Server, maxIds: nat, s: Search, log: Log)
    requires Unstalled(server, maxIds, s, log) && |log| <= MAX_BATCHES
    ensures s.offset <= INT32_MAX && Distinct(s.ids)
  {
    ReturnedBound(server, log);
    FirstIdsAre(Returned(log), maxIds);
  }

  /** The paging loop: finishes or stalls after at most 256 requests. */
  method Paging(server: Server, maxIds: size, ghost list: seq<Id>, ghost honours: bool)
    returns (r: Outcome<Verdict>, s: Search, log: Log)
    requires maxIds > 0
    ensures Ran(server, log) && |log| <= 256 && Cursor(log, maxIds) && Followed(log, |log| - 1, maxIds)
    ensures r.Threw? ==> Refused(r.failure, log)
    ensures r.Found? ==> PagingResult(server, maxIds, s, r.value, log)
    ensures r.Found? && FixedList(server, list, honours) ==> PagingOnList(list, honours, maxIds, s, r.value, |log|)
  {
    log := [];
    s := Search([], {}, 0, None);
    var batch := 0;
    while batch < MAX_BATCHES && |s.ids| < maxIds
      invariant |log| == batch <= MAX_BATCHES && Unstalled(server, maxIds, s, log)
      invariant FixedList(server, list, honours) ==> PagingOnList(list, honours, maxIds, s, GoOn, |log|)
    {
      r, s, log := NextPage(server, maxIds, s, log, list, honours);
      if r.Threw? || !r.value.GoOn? {
        return;
      }
      batch := batch + 1;
    }
    BudgetSpent(server, maxIds, s, log, list, honours);
    r := Found(if |s.ids| < maxIds then Stalled else Finished(false));
  }

  /** The loop ran to its end: no requests are left, below the bound. */
  lemma BudgetSpent(server: Server, maxIds: nat, s: Search, log: Log, list: seq<Id>, honours: bool)
    requires Unstalled(server, maxIds, s, log) && 0 < maxIds && |log| <= 256 && (|log| == 256 || |s.ids| >= maxIds)
    ensures |s.ids| < maxIds && PagingResult(server, maxIds, s, Stalled, log)
    ensures PagingOnList(list, honours, maxIds, s, GoOn, |log|) ==>
              PagingOnList(list, honours, maxIds, s, Stalled, |log|)
  {
    assert log[..|log|] == log;
  }

  // --------------------------------------------------------------- fallback

  /** Single pages at offset 0: the first of 512 ids or twice those known, each one
      after it twice the one before, up to `maxIds`, and all full but the last. */
  ghost predicate Doubling(extra: Log, known: nat, maxIds: nat) {
    && (forall k :: 0 <= k < |extra| ==> FallbackRequest(extra[k].request, maxIds))
    && (extra != [] ==> extra[0].request.maxItems == Min(maxIds, Max(512, 2 * known)))
    && forall i, j :: 0 <= i < j == i + 1 < |extra| ==> Follows(extra[i], extra[j].request.maxItems, maxIds)
  }

  ghost predicate Full(x: Exchange) {
    |IdsOf(x)| >= x.request.maxItems
  }

  ghost predicate FallbackRequest(q: Request, maxIds: nat) {
    && q.offset == 0 && 0 < q.maxItems <= maxIds
    && q.maxResponseSize == Min(0x100_0000, Max(0x10_0000, 4096 * q.maxItems))
  }

  ghost predicate Follows(x: Exchange, pageSize: nat, maxIds: nat) {
    Full(x) && x.request.maxItems < maxIds && pageSize == Min(2 * x.request.maxItems, maxIds)
  }

  lemma DoublingGoesOn(log0: Log, log: Log, x: Exchange, known: nat, maxIds: nat)
    requires log0 <= log && Doubling(log[|log0|..], known, maxIds) && FallbackRequest(x.request, maxIds)
    requires if |log| == |log0| then x.request.maxItems == Min(maxIds, Max(512, 2 * known))
             else Follows(log[|log| - 1], x.request.maxItems, maxIds)
    ensures log0 <= log + [x] && Doubling((log + [x])[|log0|..], known, maxIds)
  {
    var extra := log[|log0|..];
    assert (log + [x])[|log0|..] == extra + [x];
    assert extra != [] ==> extra[|extra| - 1] == log[|log| - 1];
  }

  lemma {:induction false} DoublingAt(extra: Log, known: nat, maxIds: nat, k: nat)
    requires Doubling(extra, known, maxIds) && k < |extra|
    ensures extra[k].request.maxItems >= Min(512 * Pow2(k), maxIds)
  {
    if k > 0 {
      DoublingAt(extra, known, maxIds, k - 1);
      assert Follows(extra[k - 1], extra[k].request.maxItems, maxIds);
    }
  }

  /** Logarithmically many: n requests need more than 512 * 2^(n-2) ids wanted. */
  lemma FallbackBound(extra: Log, known: nat, maxIds: nat)
    requires Doubling(extra, known, maxIds) && |extra| >= 2
    ensures 512 * Pow2(|extra| - 2) < maxIds
  {
    var n := |extra|;
    DoublingAt(extra, known, maxIds, n - 2);
    assert Follows(extra[n - 2], extra[n - 1].request.maxItems, maxIds);
  }

  lemma {:induction false} Pow2Grows(a: nat, b: nat)
    requires a <= b
    ensures Pow2(a) <= Pow2(b)
  {
    if a < b {
      Pow2Grows(a, b - 1);
    }
  }

  /** A page that was received and full is of 2^21 ids at most, the first asks for
      512 at least: so there are 13 full ones, and one more, whatever is wanted. */
  lemma FallbackRequests(server: Server, log: Log, paged: nat, known: nat, maxIds: nat)
    requires Ran(server, log) && paged <= |log| && Doubling(log[paged..], known, maxIds)
    ensures |log| <= paged + 14
  {
    var extra := log[paged..];
    if |extra| >= 2 {
      var k := |extra| - 2;
      ReturnedBound(server, log);
      DoublingAt(extra, known, maxIds, k);
      assert Follows(extra[k], extra[k + 1].request.maxItems, maxIds);
      assert extra[k] == log[paged + k];
      Pow2Of13();
      if k >= 13 {
        Pow2Grows(13, k);
      }
    }
  }

  lemma Pow2Of13()
    ensures Pow2(13) == 0x2000
  {
    assert Pow2(3) == 8 && Pow2(5) == 32 && Pow2(7) == 128 && Pow2(9) == 512 && Pow2(11) == 0x800;
  }

  datatype Settlement = More | Return(confirmedComplete: bool) | Throw(failure: Failure)

  /** The decision after a fallback page of `count` ids, `inPage` of the `known`
      ones among them, that brought the distinct ids to `n`. */
  function Settle(maxIds: nat, n: nat, known: nat, inPage: nat, count: nat, pageSize: nat,
                  total: Option<nat>): Settlement {
    if n >= maxIds then Return(false)
    else if total.Some? && n >= total.value then Return(true)
    else if count < pageSize then
      if inPage < known then Throw(OmitsKnown)
      else if total.Some? then Throw(TotalNotReached)
      else Return(true)
    else if pageSize >= maxIds then Throw(TooFewDistinct)
    else More
  }

  /** The total that counts with a fallback page: its own, or what paging was told. */
  function TotalAt(log0: Log, log: Log): Option<nat>
    requires log != []
  {
    var x := log[|log| - 1];
    if UsableTotal(x).Some? then UsableTotal(x) else LastTotal(log0)
  }

  /** Neither the bound nor the total is reached. */
  ghost predicate Undecided(log0: Log, log: Log, maxIds: nat)
    requires log != []
  {
    var ids := FirstIds(Returned(log), maxIds);
    |ids| < maxIds && !Reached(ids, TotalAt(log0, log))
  }

  /** The last page omits an id that the server returned before. */
  ghost predicate Omits(log: Log)
    requires log != []
  {
    !(Elements(Returned(log[..|log| - 1])) <= Elements(IdsOf(log[|log| - 1])))
  }

  /** What the server must have done for the list to stay undetermined. */
  ghost predicate Undetermined(f: Failure, log0: Log, log: Log, maxIds: nat) {
    && log0 < log && Undecided(log0, log, maxIds)
    && var x := log[|log| - 1];
       x.reply.Page? && x.request.offset == 0 &&
       match f
       case OmitsKnown => ShortPage(x) && Omits(log)
       case TotalNotReached => ShortPage(x) && !Omits(log) && TotalAt(log0, log).Some?
       case TooFewDistinct => !ShortPage(x) && x.request.maxItems == maxIds
       case _ => false
  }

  /** What the fallback may return: `maxIds` ids, or fewer that are confirmed, by a
      total that is reached or by a short page with every known id and no total. */
  ghost predicate Determined(o: Located, log0: Log, log: Log, maxIds: nat) {
    && log0 < log && |o.ids| <= maxIds && (o.confirmedComplete <==> |o.ids| < maxIds)
    && (o.confirmedComplete ==>
          || Reached(o.ids, TotalAt(log0, log))
          || (ShortPage(log[|log| - 1]) && !Omits(log) && TotalAt(log0, log).None?))
    && (o.confirmedComplete ==> Confirms(o.ids, log))
  }

  /** The first `n` exchanges left the fallback undecided. */
  ghost predicate Pending(log0: Log, log: Log, n: int, maxIds: nat) {
    forall k :: |log0| < k <= n && k <= |log| ==> Undecided(log0, log[..k], maxIds)
  }

  lemma PendingNext(log0: Log, log: Log, x: Exchange, maxIds: nat)
    requires log0 <= log && Pending(log0, log, |log|, maxIds)
    ensures Pending(log0, log + [x], |log|, maxIds)
    ensures Undecided(log0, log + [x], maxIds) ==> Pending(log0, log + [x], |log| + 1, maxIds)
  {
    forall k | 0 <= k <= |log| + 1 ensures (log + [x])[..k] == if k <= |log| then log[..k] else log + [x] {
    }
  }

  /** Known ids that are all in the page: counting is enough to tell. */
  lemma Counted(seen: set<Id>, page: set<Id>)
    ensures |page * seen| >= |seen| <==> seen <= page
  {
    if seen <= page {
      assert page * seen == seen;
    } else {
      var id :| id in seen && id !in page;
      assert page * seen <= seen - {id};
      SubsetSize(page * seen, seen - {id});
    }
  }

  lemma {:induction false} SubsetSize(a: set<Id>, b: set<Id>)
    requires a <= b
    ensures |a| <= |b|
    ensures |a| == |b| ==> a == b
    decreases |a|
  {
    if a != {} {
      var id :| id in a;
      SubsetSize(a - {id}, b - {id});
      assert a == (a - {id}) + {id} && b == (b - {id}) + {id};
    }
  }

  lemma Settled(server: Server, maxIds: nat, ids: seq<Id>, seen: set<Id>, log0: Log, log: Log, x: Exchange,
                ids': seq<Id>, seen': set<Id>)
    requires Collected(server, maxIds, ids, seen, log) && |ids| < maxIds && log0 <= log
    requires Collected(server, maxIds, ids', seen', log + [x])
    requires x.reply.Page? && x.request.offset == 0 && x.request.maxItems <= maxIds
    requires KnownTotal(log + [x], TotalAt(log0, log + [x]))
    ensures var inPage, total := |Elements(x.reply.ids) * seen|, TotalAt(log0, log + [x]);
            match Settle(maxIds, |ids'|, |ids|, inPage, |x.reply.ids|, x.request.maxItems, total)
            case Return(confirmed) => Determined(Located(ids', seen', confirmed), log0, log + [x], maxIds)
            case Throw(f) => Undetermined(f, log0, log + [x], maxIds)
            case More => Undecided(log0, log + [x], maxIds) && x.request.maxItems < maxIds && Full(x)
  {
    var page, log' := Elements(x.reply.ids), log + [x];
    assert log'[..|log'| - 1] == log && log'[|log'| - 1] == x;
    FirstIdsAre(Returned(log'), maxIds);
    if |ids'| < maxIds {
      MergedPage(server, maxIds, ids, seen, log, x, ids', seen');
    }
  }

  /** Below the bound, nothing the server returned is missing, and a count tells
      whether the page alone is all of it. */
  lemma MergedPage(server: Server, maxIds: nat, ids: seq<Id>, seen: set<Id>, log: Log, x: Exchange, ids': seq<Id>,
                   seen': set<Id>)
    requires Collected(server, maxIds, ids, seen, log) && Collected(server, maxIds, ids', seen', log + [x])
    requires x.reply.Page? && |ids| < maxIds && |ids'| < maxIds
    ensures |Elements(Returned(log + [x]))| == |ids'|
    ensures |Elements(x.reply.ids) * seen| < |ids| <==> Omits(log + [x])
    ensures !Omits(log + [x]) ==> Elements(ids') == Elements(x.reply.ids)
  {
    assert (log + [x])[..|log|] == log && (log + [x])[|log|] == x;
    AllCollected(server, maxIds, ids, seen, log);
    AllCollected(server, maxIds, ids', seen', log + [x]);
    ReturnedNext(log, x);
    Counted(seen, Elements(x.reply.ids));
    ElementsJoin(Returned(log), x.reply.ids);
  }

  lemma ElementsJoin(a: seq<Id>, b: seq<Id>)
    ensures Elements(a + b) == Elements(a) + Elements(b)
  {
  }

  lemma AllCollected(server: Server, maxIds: nat, ids: seq<Id>, seen: set<Id>, log: Log)
    requires Collected(server, maxIds, ids, seen, log) && |ids| < maxIds
    ensures seen == Elements(Returned(log)) && |seen| == |ids|
  {
    FirstIdsAre(Returned(log), maxIds);
    DistinctCount(ids);
  }

  /** On a fixed list a page at offset 0 settles the search or calls for more: it
      returns all that is wanted, and a full page only with a total to tell. */
  lemma SettledOnList(maxIds: nat, ids: seq<Id>, log: Log, x: Exchange, ids': seq<Id>, total: Option<nat>,
                      list: seq<Id>, honours: bool)
    requires ids == FirstIds(Returned(log), maxIds) && ids' == FirstIds(Returned(log + [x]), maxIds)
    requires |ids| < maxIds && x.reply.Page? && x.request.offset == 0 && |ids| <= x.request.maxItems <= maxIds
    requires Distinct(list) && Matches(x.reply, x.request, list, honours) && OnList(list, ids, total)
    ensures OnList(list, ids', total) && |ids'| == Min(x.request.maxItems, |list|)
    ensures match Settle(maxIds, |ids'|, |ids|, |Elements(x.reply.ids) * Elements(ids)|, |x.reply.ids|,
                         x.request.maxItems, if UsableTotal(x).Some? then UsableTotal(x) else total)
            case Return(confirmed) =>
              && ids' == list[..Min(maxIds, |list|)]
              && (|list| == x.request.maxItems < maxIds ==> total.Some?)
            case Throw(f) => false
            case More => |list| >= x.request.maxItems && (|list| == x.request.maxItems ==> total.None?)
  {
    PrefixOfList(maxIds, ids, log, x, list, honours);
    SettledNumbers(maxIds, Min(x.request.maxItems, |list|), |ids|, |Elements(x.reply.ids) * Elements(ids)|,
                   x.request.maxItems, if UsableTotal(x).Some? then UsableTotal(x) else total, |list|);
  }

  lemma PrefixOfList(maxIds: nat, ids: seq<Id>, log: Log, x: Exchange, list: seq<Id>, honours: bool)
    requires ids == FirstIds(Returned(log), maxIds) && ids <= list
    requires x.reply.Page? && x.request.offset == 0 && |ids| <= x.request.maxItems <= maxIds
    requires Distinct(list) && Matches(x.reply, x.request, list, honours)
    ensures UsableTotal(x).Some? ==> UsableTotal(x).value == |list| > x.request.maxItems
    ensures x.reply.ids == FirstIds(Returned(log + [x]), maxIds) == list[..Min(x.request.maxItems, |list|)]
    ensures |Elements(x.reply.ids) * Elements(ids)| >= |ids|
  {
    ListStep(list, honours, log, x, ids, maxIds);
    var b := Min(x.request.maxItems, |list|);
    assert x.reply.ids == list[..b];
    FirstIdsAre(Returned(log), maxIds);
    DistinctCount(ids);
    PrefixElements(ids, x.reply.ids);
    Counted(Elements(ids), Elements(x.reply.ids));
  }

  lemma SettledNumbers(maxIds: nat, n: nat, known: nat, inPage: nat, pageSize: nat, total: Option<nat>, whole: nat)
    requires n == Min(pageSize, whole) && known <= inPage && pageSize <= maxIds
    requires total.Some? ==> total.value == whole
    ensures match Settle(maxIds, n, known, inPage, n, pageSize, total)
            case Return(confirmed) => n == Min(maxIds, whole) && (whole == pageSize < maxIds ==> total.Some?)
            case Throw(f) => false
            case More => whole >= pageSize && (whole == pageSize ==> total.None?)
  {
  }

  lemma PrefixElements(a: seq<Id>, b: seq<Id>)
    requires a <= b
    ensures Elements(a) <= Elements(b)
  {
  }

  /** The first fallback page: at least twice the ids known, within `maxIds`,
      with no intermediate value beyond `maxIds` or 512. */
  function FirstFallbackPage(known: size, maxIds: size): (p: size)
    requires known < maxIds
    ensures p == Min(maxIds, Max(512, 2 * known as int))
  {
    var p: size := if known > maxIds / 2 then maxIds else Max(MAX_ITEMS * 2, known * 2);
    Min(p, maxIds)
  }

  function NextFallbackPage(pageSize: size, maxIds: size): (p: size)
    requires pageSize <= maxIds
    ensures p == Min(maxIds, 2 * pageSize as int)
  {
    if pageSize > maxIds / 2 then maxIds else pageSize * 2
  }

  /** Where the fallback stands, before a page of `pageSize`. */
  ghost predicate FallingBack(server: Server, maxIds: nat, ids: seq<Id>, seen: set<Id>, pageSize: nat, log0: Log,
                              log: Log) {
    && Collected(server, maxIds, ids, seen, log) && |ids| < maxIds
    && log0 <= log && Doubling(log[|log0|..], |FirstIds(Returned(log0), maxIds)|, maxIds)
    && Pending(log0, log, |log|, maxIds) && 0 < pageSize <= Min(maxIds, INT32_MAX)
    && if |log| == |log0| then pageSize == Min(maxIds, Max(512, 2 * |FirstIds(Returned(log0), maxIds)|))
       else Follows(log[|log| - 1], pageSize, maxIds)
  }

  /** A stalled search ends with the bound reached, a confirmed list or an error
      that names what the server did: never with a partial list. */
  ghost predicate NeverPartial(server: Server, maxIds: nat, r: Outcome<Located>, log0: Log, log: Log) {
    match r
    case Found(o) => Collected(server, maxIds, o.ids, o.seen, log) && Determined(o, log0, log, maxIds)
    case Threw(f) => Refused(f, log) || Undetermined(f, log0, log, maxIds)
  }

  /** All that the fallback asked for, and why it went on asking. */
  ghost predicate FellBack(server: Server, maxIds: nat, log0: Log, log: Log) {
    && Ran(server, log) && log0 < log && Pending(log0, log, |log| - 1, maxIds)
    && Doubling(log[|log0|..], |FirstIds(Returned(log0), maxIds)|, maxIds)
  }

  /** If no request failed, the wanted part of the list. */
  ghost predicate Complete(list: seq<Id>, maxIds: nat, r: Outcome<Located>, log: Log) {
    NoneFailed(log) ==> r.Found? && r.value.ids == list[..Min(maxIds, |list|)]
  }

  /** Where the fallback stands on a fixed list. */
  ghost predicate FallingBackOnList(list: seq<Id>, total: Option<nat>, ids: seq<Id>, pageSize: nat) {
    OnList(list, ids, total) && |ids| <= pageSize
  }

  lemma FallbackBegins(server: Server, maxIds: size, s: Search, log: Log)
    requires PagingResult(server, maxIds, s, Stalled, log) && |log| <= MAX_BATCHES
    ensures FallingBack(server, maxIds, s.ids, s.seen, FirstFallbackPage(|s.ids|, maxIds), log, log)
  {
    FirstIdsAre(Returned(log), maxIds);
    ReturnedBound(server, log);
    assert log[|log|..] == [];
  }

  /** The single-page fallback of a search that stalled. */
  method Fallback(server: Server, maxIds: size, s: Search, log0: Log, ghost list: seq<Id>, ghost honours: bool)
    returns (r: Outcome<Located>, log: Log)
    requires PagingResult(server, maxIds, s, Stalled, log0) && |log0| <= MAX_BATCHES
    requires FixedList(server, list, honours) ==> PagingOnList(list, honours, maxIds, s, Stalled, |log0|)
    ensures FellBack(server, maxIds, log0, log) && NeverPartial(server, maxIds, r, log0, log)
    ensures FixedList(server, list, honours) ==> Complete(list, maxIds, r, log)
  {
    log := log0;
    var ids, seen := s.ids, s.seen;
    var pageSize: size := FirstFallbackPage(|s.ids|, maxIds);
    FallbackBegins(server, maxIds, s, log0);
    while true
      invariant FallingBack(server, maxIds, ids, seen, pageSize, log0, log)
      invariant FixedList(server, list, honours) ==> FallingBackOnList(list, s.knownTotal, ids, pageSize)
      decreases maxIds - pageSize
    {
      var done;
      done, r, ids, seen, log :=
        FallbackPage(server, maxIds, s.knownTotal, ids, seen, pageSize, log0, log, list, honours);
      if done {
        return;
      }
      pageSize := NextFallbackPage(pageSize, maxIds);
    }
  }

  /** One page of the fallback. */
  method FallbackPage(server: Server, maxIds: size, knownTotal: Option<nat>, ids: seq<Id>, seen: set<Id>,
                      pageSize: size, log0: Log, log: Log, ghost list: seq<Id>, ghost honours: bool)
    returns (done: bool, r: Outcome<Located>, ids': seq<Id>, seen': set<Id>, log': Log)
    requires FallingBack(server, maxIds, ids, seen, pageSize, log0, log) && knownTotal == LastTotal(log0)
    requires FixedList(server, list, honours) ==> FallingBackOnList(list, knownTotal, ids, pageSize)
    ensures log < log' && FellBack(server, maxIds, log0, log')
    ensures done ==> NeverPartial(server, maxIds, r, log0, log')
    ensures done && FixedList(server, list, honours) ==> Complete(list, maxIds, r, log')
    ensures !done ==> pageSize < maxIds
    ensures !done ==> FallingBack(server, maxIds, ids', seen', NextFallbackPage(pageSize, maxIds), log0, log')
    ensures !done && FixedList(server, list, honours) ==>
              FallingBackOnList(list, knownTotal, ids', NextFallbackPage(pageSize, maxIds))
  {
    done, ids', seen' := true, ids, seen;
    var answer;
    answer, log' := LocatePage(server, log, 0, pageSize, ResponseSizeLimit(pageSize));
    DoublingGoesOn(log0, log, log'[|log|], |FirstIds(Returned(log0), maxIds)|, maxIds);
    PendingNext(log0, log, log'[|log|], maxIds);
    if answer.Threw? {
      r := Threw(answer.failure);
      return;
    }
    ghost var x := log'[|log|];
    assert FixedList(server, list, honours) ==> Matches(server(|log|, x.request), x.request, list, honours);
    done, r, ids', seen' := SettlePage(server, maxIds, knownTotal, ids, seen, log0, log, log'[|log|], list, honours);
    if !done {
      FallbackGoesOn(server, maxIds, ids', seen', log0, log, x);
    }
  }

  lemma FallbackGoesOn(server: Server, maxIds: size, ids: seq<Id>, seen: set<Id>, log0: Log, log: Log, x: Exchange)
    requires log0 <= log && Doubling((log + [x])[|log0|..], |FirstIds(Returned(log0), maxIds)|, maxIds)
    requires Collected(server, maxIds, ids, seen, log + [x]) && Pending(log0, log + [x], |log| + 1, maxIds)
    requires Undecided(log0, log + [x], maxIds)
    requires 0 < x.request.maxItems < maxIds && x.request.maxItems <= PAGE_LIMIT && Full(x)
    ensures FallingBack(server, maxIds, ids, seen, NextFallbackPage(x.request.maxItems, maxIds), log0, log + [x])
  {
  }

  /** What a fallback page settles. */
  method SettlePage(server: Server, maxIds: size, knownTotal: Option<nat>, ids: seq<Id>, seen: set<Id>,
                    ghost log0: Log, ghost log: Log, x: Exchange, ghost list: seq<Id>, ghost honours: bool)
    returns (done: bool, r: Outcome<Located>, ids': seq<Id>, seen': set<Id>)
    requires Collected(server, maxIds, ids, seen, log) && |ids| < maxIds && log0 <= log && knownTotal == LastTotal(log0)
    requires x.reply.Page? && x.request.offset == 0 && x.request.maxItems <= maxIds && Ran(server, log + [x])
    ensures done ==> NeverPartial(server, maxIds, r, log0, log + [x])
    ensures !done ==> Collected(server, maxIds, ids', seen', log + [x]) && Undecided(log0, log + [x], maxIds)
    ensures !done ==> x.request.maxItems < maxIds && Full(x) && x.request.maxItems <= PAGE_LIMIT
    ensures FallbackPageOfList(list, honours, knownTotal, ids, x) ==>
              if done then Complete(list, maxIds, r, log + [x])
              else FallingBackOnList(list, knownTotal, ids', Min(maxIds, 2 * x.request.maxItems))
  {
    var total;
    ids', seen', total := FallbackMerge(server, maxIds, knownTotal, ids, seen, log, x);
    TotalIsKnown(log0, log, x);
    var knownInPage := |Elements(x.reply.ids) * seen|;
    var settlement := Settle(maxIds, |ids'|, |ids|, knownInPage, |x.reply.ids|, x.request.maxItems, total);
    Settled(server, maxIds, ids, seen, log0, log, x, ids', seen');
    ReturnedBound(server, log + [x]);
    assert (log + [x])[|log|] == x;
    if FallbackPageOfList(list, honours, knownTotal, ids, x) {
      SettledForList(list, honours, maxIds, knownTotal, ids, log, x, ids', seen', settlement);
    }
    done := true;
    match settlement
    case Return(confirmed) => r := Found(Located(ids', seen', confirmed));
    case Throw(f) => r := Threw(f);
    case More => done, r := false, Threw(TooFewDistinct);
  }

  lemma TotalIsKnown(log0: Log, log: Log, x: Exchange)
    requires log0 <= log
    ensures KnownTotal(log + [x], TotalAt(log0, log + [x]))
  {
    LastTotalSeen(log0);
    SeenLater(log0, log, LastTotal(log0));
    TotalKept(log, x, TotalAt(log0, log + [x]));
  }

  lemma SeenLater(log0: Log, log: Log, total: Option<nat>)
    requires log0 <= log && KnownTotal(log0, total)
    ensures KnownTotal(log, total)
  {
    if total.Some? {
      var k :| 0 <= k < |log0| && UsableTotal(log0[k]) == Some(total.value);
      assert log[k] == log0[k];
    }
  }

  ghost predicate FallbackPageOfList(list: seq<Id>, honours: bool, total: Option<nat>, ids: seq<Id>, x: Exchange) {
    && Distinct(list) && Matches(x.reply, x.request, list, honours)
    && FallingBackOnList(list, total, ids, x.request.maxItems)
  }

  lemma SettledForList(list: seq<Id>, honours: bool, maxIds: nat, total: Option<nat>, ids: seq<Id>, log: Log,
                       x: Exchange, ids': seq<Id>, seen': set<Id>, settlement: Settlement)
    requires ids == FirstIds(Returned(log), maxIds) && ids' == FirstIds(Returned(log + [x]), maxIds) && |ids| < maxIds
    requires x.reply.Page? && x.request.offset == 0 && x.request.maxItems <= maxIds
    requires FallbackPageOfList(list, honours, total, ids, x)
    requires settlement == Settle(maxIds, |ids'|, |ids|, |Elements(x.reply.ids) * Elements(ids)|, |x.reply.ids|,
                                  x.request.maxItems, if UsableTotal(x).Some? then UsableTotal(x) else total)
    ensures match settlement
            case Return(confirmed) => Complete(list, maxIds, Found(Located(ids', seen', confirmed)), log + [x])
            case Throw(f) => false
            case More =>
              x.request.maxItems < maxIds ==>
                FallingBackOnList(list, total, ids', Min(maxIds, 2 * x.request.maxItems))
  {
    SettledOnList(maxIds, ids, log, x, ids', total, list, honours);
  }

  /** The ids of a fallback page, and the total that counts with it. */
  method FallbackMerge(server: Server, maxIds: size, knownTotal: Option<nat>, ids: seq<Id>, seen: set<Id>,
                       ghost log: Log, x: Exchange)
    returns (ids': seq<Id>, seen': set<Id>, total: Option<nat>)
    requires Collected(server, maxIds, ids, seen, log) && x.reply.Page? && Ran(server, log + [x])
    ensures Collected(server, maxIds, ids', seen', log + [x])
    ensures total == if UsableTotal(x).Some? then UsableTotal(x) else knownTotal
  {
    var got, added := AnswerOf(x.reply), false;
    ids', seen', added := MergeNewIds(ids, seen, got.ids, maxIds, Returned(log));
    CollectedNext(server, maxIds, ids, seen, log, x, ids', seen');
    total := LocatedTotal(got.located, |got.ids|);
    if total.None? {
      total := knownTotal;
    }
  }

  lemma CollectedNext(server: Server, maxIds: nat, ids: seq<Id>, seen: set<Id>, log: Log, x: Exchange, ids': seq<Id>,
                      seen': set<Id>)
    requires Collected(server, maxIds, ids, seen, log) && x.reply.Page? && Ran(server, log + [x])
    requires ids' == FirstIds(Returned(log) + x.reply.ids, maxIds) && seen' == Elements(ids')
    ensures Collected(server, maxIds, ids', seen', log + [x])
  {
    ReturnedNext(log, x);
  }

  // ------------------------------------------------------------- the search

  /** A search that ended in paging. */
  ghost predicate EndedInPaging(server: Server, maxIds: nat, r: Outcome<Located>, log: Log) {
    match r
    case Threw(f) => Refused(f, log)
    case Found(o) =>
      && Collected(server, maxIds, o.ids, o.seen, log) && log != [] && PageEnds(log, maxIds) && !Stalls(log, maxIds)
      && (o.confirmedComplete <==> ConfirmedByPaging(log, maxIds))
      && (o.confirmedComplete ==> Confirms(o.ids, log))
      && (!o.confirmedComplete && |o.ids| < maxIds ==> ShortPage(log[|log| - 1]) && LastTotal(log).None?)
  }

  /** A whole search: the first `paged` requests are the paging loop's, which goes on
      to the first page that ends it; the others are the fallback's, if and only if
      paging stalls. */
  ghost predicate Searched(server: Server, maxIds: nat, r: Outcome<Located>, log: Log, paged: nat) {
    && Ran(server, log) && paged <= 256 && paged <= |log| <= paged + 14
    && Cursor(log[..paged], maxIds) && Followed(log[..paged], paged - 1, maxIds)
    && if paged == |log| then EndedInPaging(server, maxIds, r, log)
       else
         && Stalls(log[..paged], maxIds) && FellBack(server, maxIds, log[..paged], log)
         && NeverPartial(server, maxIds, r, log[..paged], log)
  }

  /** The search for up to `maxIds` ids. */
  method LocateAll(server: Server, maxIds: size, ghost list: seq<Id>, ghost honours: bool)
    returns (r: Outcome<Located>, log: Log, ghost paged: nat)
    ensures maxIds > 0 ==> Searched(server, maxIds, r, log, paged)
    ensures maxIds == 0 ==> log == [] && r == Found(Located([], {}, true))
    ensures FixedList(server, list, honours) ==> Complete(list, maxIds, r, log)
  {
    if maxIds == 0 {
      return Found(Located([], {}, true)), [], 0;
    }
    var verdict, s;
    verdict, s, log := Paging(server, maxIds, list, honours);
    paged := |log|;
    assert log[..paged] == log;
    if verdict.Threw? {
      return Threw(verdict.failure), log, paged;
    }
    if verdict.value.Finished? {
      if FixedList(server, list, honours) {
        FinishedIsComplete(list, honours, maxIds, s, verdict.value.confirmedComplete, log);
      }
      return Found(Located(s.ids, s.seen, verdict.value.confirmedComplete)), log, paged;
    }
    ghost var before := log;
    r, log := Fallback(server, maxIds, s, log, list, honours);
    FallbackRequests(server, log, paged, |FirstIds(Returned(before), maxIds)|, maxIds);
    assert log[..paged] == before;
  }

  lemma FinishedIsComplete(list: seq<Id>, honours: bool, maxIds: nat, s: Search, confirmed: bool, log: Log)
    requires PagingOnList(list, honours, maxIds, s, Finished(confirmed), |log|)
    ensures Complete(list, maxIds, Found(Located(s.ids, s.seen, confirmed)), log)
  {
  }

  /** A confirmation is sound for any set of which the server's pages are drawn,
      its usable totals count and its short first pages show the whole. */
  lemma ConfirmedIsWhole(server: Server, maxIds: nat, o: Located, log: Log, whole: set<Id>)
    requires Collected(server, maxIds, o.ids, o.seen, log) && Confirms(o.ids, log)
    requires Elements(Returned(log)) <= whole
    requires forall total :: TotalSeen(log, total) ==> total == |whole|
    requires forall k :: 0 <= k < |log| && ShortPage(log[k]) && log[k].request.offset == 0 ==>
               whole <= Elements(log[k].reply.ids)
    ensures Elements(o.ids) == whole
  {
    FirstIdsAre(Returned(log), maxIds);
    DistinctCount(o.ids);
    SubsetSize(Elements(o.ids), whole);
  }
}
