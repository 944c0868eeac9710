/** Listing all objects: the search, and the probing passes that look for ids which
    a server without a stable order can skip between pages. */
module Probing {
  import opened Prelude
  import opened Locate

  // ---------------------------------------------------------------- windows

  /** A pass asks for consecutive windows of one size, from the start. */
  ghost predicate Windows(log0: Log, log: Log, pageSize: nat)
    decreases |log|
  {
    if |log| <= |log0| then log == log0
    else
      var init := log[..|log| - 1];
      && log[|log| - 1].request == Request(NextWindow(log0, init, pageSize), pageSize, 0x10_0000)
      && Windows(log0, init, pageSize)
  }

  /** Where the next window starts. */
  function NextWindow(log0: Log, log: Log, pageSize: nat): nat {
    if |log| <= |log0| then 0 else log[|log| - 1].request.offset + pageSize
  }

  lemma WindowsNext(log0: Log, log: Log, x: Exchange, pageSize: nat)
    requires Windows(log0, log, pageSize) && |log| >= |log0|
    requires x.request == Request(NextWindow(log0, log, pageSize), pageSize, 0x10_0000)
    ensures Windows(log0, log + [x], pageSize)
  {
    assert (log + [x])[..|log|] == log;
  }

  lemma {:induction false} WindowsAre(log0: Log, log: Log, pageSize: nat)
    requires Windows(log0, log, pageSize)
    ensures log0 <= log
    ensures forall k :: |log0| <= k < |log| ==> log[k].request == Request(pageSize * (k - |log0|), pageSize, 0x10_0000)
    decreases |log|
  {
    if |log| > |log0| {
      var init := log[..|log| - 1];
      WindowsAre(log0, init, pageSize);
      assert |init| > |log0| ==> init[|init| - 1].request.offset == pageSize * (|init| - 1 - |log0|);
    }
  }

  /** The window of exchange `k` ends its pass: it is empty, a total of its own page
      says that nothing follows, or it has no id the server had not returned before
      and is short or has the ids of the window before. */
  ghost predicate WindowEnds(log0: Log, log: Log, k: nat, pageSize: nat)
    requires |log0| <= k < |log|
  {
    var x := log[k];
    || IdsOf(x) == []
    || (UsableTotal(x).Some? && x.request.offset + pageSize >= UsableTotal(x).value)
    || (&& Elements(IdsOf(x)) <= Elements(Returned(log[..k]))
        && (|IdsOf(x)| < pageSize || (k > |log0| && Elements(IdsOf(x)) == Elements(IdsOf(log[k - 1])))))
  }

  /** One pass, as far as it went: windows of one size from the start on, of which
      none but the last ends it or reaches the bound. */
  ghost predicate Pass(log0: Log, log: Log, pageSize: nat, maxIds: nat) {
    && Windows(log0, log, pageSize) && |log| <= |log0| + 256
    && forall k :: |log0| <= k < |log| - 1 ==>
         !WindowEnds(log0, log, k, pageSize) && |FirstIds(Returned(log[..k + 1]), maxIds)| < maxIds
  }

  /** A pass that came to its end: there are 256 windows, the bound is reached, or the
      last window ends it. */
  ghost predicate PassDone(log0: Log, log: Log, pageSize: nat, maxIds: nat) {
    && Pass(log0, log, pageSize, maxIds)
    && (|| |log| == |log0| + 256
        || |FirstIds(Returned(log), maxIds)| >= maxIds
        || (|log| > |log0| && WindowEnds(log0, log, |log| - 1, pageSize)))
  }

  lemma PassNext(log0: Log, log: Log, x: Exchange, pageSize: nat, maxIds: nat)
    requires |log0| <= |log| < |log0| + 256 && Pass(log0, log, pageSize, maxIds)
    requires x.request == Request(NextWindow(log0, log, pageSize), pageSize, 0x10_0000)
    requires |FirstIds(Returned(log), maxIds)| < maxIds
    requires |log| > |log0| ==> !WindowEnds(log0, log, |log| - 1, pageSize)
    ensures Pass(log0, log + [x], pageSize, maxIds)
  {
    var log' := log + [x];
    WindowsNext(log0, log, x, pageSize);
    forall k | |log0| <= k < |log|
      ensures !WindowEnds(log0, log', k, pageSize) && |FirstIds(Returned(log'[..k + 1]), maxIds)| < maxIds
    {
      assert log'[..k] == log[..k] && log'[..k + 1] == log[..k + 1] && log'[k] == log[k];
      assert log[..|log|] == log;
      assert WindowEnds(log0, log', k, pageSize) == WindowEnds(log0, log, k, pageSize);
    }
  }

  /** Probing: a pass with windows of 256 ids up to `a`, one with 64 up to `b`, and
      one with 16. */
  ghost predicate Probed(log0: Log, a: Log, b: Log, log: Log, maxIds: nat) {
    Pass(log0, a, 256, maxIds) && Pass(a, b, 64, maxIds) && Pass(b, log, 16, maxIds)
  }

  ghost predicate ProbedAll(log0: Log, a: Log, b: Log, log: Log, maxIds: nat) {
    PassDone(log0, a, 256, maxIds) && PassDone(a, b, 64, maxIds) && PassDone(b, log, 16, maxIds)
  }

  lemma NoPass(log: Log, pageSize: nat, maxIds: nat)
    ensures Pass(log, log, pageSize, maxIds)
    ensures |FirstIds(Returned(log), maxIds)| >= maxIds ==> PassDone(log, log, pageSize, maxIds)
  {
  }

  /** Probing only ever adds ids. */
  method ProbeAll(server: Server, maxIds: size, o: Located, log0: Log, ghost list: seq<Id>, ghost honours: bool)
    returns (r: Outcome<Located>, log: Log, ghost a: Log, ghost b: Log)
    requires Collected(server, maxIds, o.ids, o.seen, log0)
    ensures Ran(server, log) && log0 <= log && Probed(log0, a, b, log, maxIds)
    ensures |o.ids| < maxIds ==> |log| > |log0|
    ensures r.Threw? ==> Refused(r.failure, log)
    ensures r.Found? ==> Collected(server, maxIds, r.value.ids, r.value.seen, log)
    ensures r.Found? ==> ProbedAll(log0, a, b, log, maxIds)
    ensures r.Found? && FixedList(server, list, honours) && o.ids == list ==> r.value.ids == list
  {
    log, a, b := log0, log0, log0;
    r := Found(o);
    var sizes: seq<size> := [256, 64, 16];
    for i := 0 to 3
      invariant log0 <= log && Stage(log0, a, b, log, i, maxIds)
      invariant (i == 0 ==> r == Found(o) && log == log0) && (i > 0 && |o.ids| < maxIds ==> |log| > |log0|)
      invariant r.Found? && Collected(server, maxIds, r.value.ids, r.value.seen, log)
      invariant FixedList(server, list, honours) && o.ids == list ==> r.value.ids == list
    {
      ghost var before := log;
      r, log := ProbePass(server, maxIds, r.value, sizes[i], log, list, honours);
      StageNext(log0, a, b, before, log, i, maxIds);
      a, b := if i == 0 then log else a, if i <= 1 then log else b;
      if r.Threw? || |r.value.ids| >= maxIds {
        return;
      }
    }
  }

  /** Where probing stands after `i` passes. */
  ghost predicate Stage(log0: Log, a: Log, b: Log, log: Log, i: nat, maxIds: nat) {
    && (i >= 1 ==> PassDone(log0, a, 256, maxIds)) && (i >= 2 ==> PassDone(a, b, 64, maxIds))
    && (i >= 3 ==> PassDone(b, log, 16, maxIds)) && (i == 1 ==> a == log) && (i == 2 ==> b == log)
  }

  lemma StageNext(log0: Log, a: Log, b: Log, before: Log, log: Log, i: nat, maxIds: nat)
    requires i < 3 && Stage(log0, a, b, before, i, maxIds) && (i == 0 ==> before == log0)
    requires Pass(before, log, if i == 0 then 256 else if i == 1 then 64 else 16, maxIds)
    ensures var a', b' := if i == 0 then log else a, if i <= 1 then log else b;
            && Probed(log0, a', b', log, maxIds)
            && (PassDone(before, log, if i == 0 then 256 else if i == 1 then 64 else 16, maxIds) ==>
                && Stage(log0, a', b', log, i + 1, maxIds)
                && (|FirstIds(Returned(log), maxIds)| >= maxIds ==> ProbedAll(log0, a', b', log, maxIds)))
  {
    NoPass(log, 64, maxIds);
    NoPass(log, 16, maxIds);
  }

  /** An id is new if the server has not returned it before. */
  lemma {:induction false} NothingNew(all: seq<Id>, page: seq<Id>, max: nat)
    requires |FirstIds(all, max)| < max
    ensures FirstIds(all + page, max) == FirstIds(all, max) <==> Elements(page) <= Elements(all)
  {
    FirstIdsAre(all, max);
    FirstIdsMore(all, page, max);
    if FirstIds(all + page, max) == FirstIds(all, max) {
      FirstIdsAre(all + page, max);
      assert Elements(page) <= Elements(all + page);
    } else if Elements(page) <= Elements(all) {
      OldIdsAddNothing(all, page, max);
    }
  }

  lemma {:induction false} OldIdsAddNothing(all: seq<Id>, page: seq<Id>, max: nat)
    requires |FirstIds(all, max)| < max && Elements(page) <= Elements(all)
    ensures FirstIds(all + page, max) == FirstIds(all, max)
  {
    if page == [] {
      assert all + page == all;
    } else {
      var init, last := page[..|page| - 1], page[|page| - 1];
      assert Elements(init) <= Elements(page) && last in Elements(page);
      OldIdsAddNothing(all, init, max);
      assert all + page == (all + init) + [last];
      FirstIdsNext(all + init, last, max);
      FirstIdsAre(all, max);
      assert last in Elements(FirstIds(all, max));
    }
  }

  /** One pass with pages of one size. */
  method ProbePass(server: Server, maxIds: size, o: Located, pageSize: size, log0: Log, ghost list: seq<Id>,
                   ghost honours: bool)
    returns (r: Outcome<Located>, log: Log)
    requires Collected(server, maxIds, o.ids, o.seen, log0) && 0 < pageSize <= MAX_ITEMS
    ensures Ran(server, log) && log0 <= log && Pass(log0, log, pageSize, maxIds)
    ensures |o.ids| < maxIds ==> |log| > |log0|
    ensures r.Threw? ==> Refused(r.failure, log)
    ensures r.Found? ==> Collected(server, maxIds, r.value.ids, r.value.seen, log)
    ensures r.Found? ==> PassDone(log0, log, pageSize, maxIds)
    ensures r.Found? && FixedList(server, list, honours) && o.ids == list ==> r.value.ids == list
  {
    log := log0;
    var ids, seen := o.ids, o.seen;
    var offset: nat, prevPage: seq<Id>, batch := 0, [], 0;
    while batch < MAX_BATCHES && |ids| < maxIds
      invariant |log| == |log0| + batch && batch <= MAX_BATCHES && log0 <= log
      invariant InPass(server, maxIds, ids, seen, log0, log, offset, pageSize, prevPage)
      invariant offset <= MAX_ITEMS * batch && (batch == 0 ==> ids == o.ids)
      invariant FixedList(server, list, honours) && o.ids == list ==> ids == list
    {
      var ends, page;
      ends, page, ids, seen, log :=
        ProbeWindow(server, maxIds, ids, seen, log0, log, offset, pageSize, prevPage, list, honours);
      if ends.Threw? {
        return Threw(ends.failure), log;
      }
      if ends.value {
        return Found(Located(ids, seen, o.confirmedComplete)), log;
      }
      offset := offset + pageSize;
      prevPage := page;
      batch := batch + 1;
    }
    r := Found(Located(ids, seen, o.confirmedComplete));
    PassIsDone(server, maxIds, ids, seen, log0, log, offset, pageSize, prevPage);
  }

  /** Where a pass stands before a window: no window so far has ended it. */
  ghost predicate InPass(server: Server, maxIds: nat, ids: seq<Id>, seen: set<Id>, log0: Log, log: Log, offset: nat,
                         pageSize: nat, prevPage: seq<Id>) {
    && |log0| <= |log| && Pass(log0, log, pageSize, maxIds) && offset == NextWindow(log0, log, pageSize)
    && Collected(server, maxIds, ids, seen, log)
    && if |log| == |log0| then prevPage == []
       else !WindowEnds(log0, log, |log| - 1, pageSize) && prevPage == IdsOf(log[|log| - 1])
  }

  lemma PassIsDone(server: Server, maxIds: nat, ids: seq<Id>, seen: set<Id>, log0: Log, log: Log, offset: nat,
                   pageSize: nat, prevPage: seq<Id>)
    requires InPass(server, maxIds, ids, seen, log0, log, offset, pageSize, prevPage)
    requires |log| == |log0| + 256 || |ids| >= maxIds
    ensures PassDone(log0, log, pageSize, maxIds) && Collected(server, maxIds, ids, seen, log)
  {
  }

  /** One window of a pass: whether it ends it. */
  method ProbeWindow(server: Server, maxIds: size, ids: seq<Id>, seen: set<Id>, ghost log0: Log, log: Log, offset: nat,
                     pageSize: size, prevPage: seq<Id>, ghost list: seq<Id>, ghost honours: bool)
    returns (r: Outcome<bool>, page: seq<Id>, ids': seq<Id>, seen': set<Id>, log': Log)
    requires InPass(server, maxIds, ids, seen, log0, log, offset, pageSize, prevPage)
    requires |ids| < maxIds && |log| < |log0| + 256 && 0 < pageSize <= INT32_MAX && offset <= INT32_MAX
    ensures |log'| == |log| + 1 && log < log' && Ran(server, log') && Pass(log0, log', pageSize, maxIds)
    ensures r.Threw? ==> Refused(r.failure, log')
    ensures r.Found? ==> (r.value <==> WindowEnds(log0, log', |log|, pageSize))
    ensures r.Found? && r.value ==>
              Collected(server, maxIds, ids', seen', log') && PassDone(log0, log', pageSize, maxIds)
    ensures r.Found? && !r.value ==>
              InPass(server, maxIds, ids', seen', log0, log', offset + pageSize, pageSize, page)
    ensures r.Found? && FixedList(server, list, honours) && ids == list ==> ids' == list
  {
    var answer, addedAny;
    answer, ids', seen', addedAny, log' := ProbePage(server, maxIds, ids, seen, log, offset, pageSize, list, honours);
    page := [];
    PassNext(log0, log, log'[|log|], pageSize, maxIds);
    if answer.Threw? {
      r := Threw(answer.failure);
      return;
    }
    var got := answer.value;
    page := got.ids;
    EndsExactly(log0, log, log'[|log|], pageSize, maxIds, got, prevPage, addedAny);
    var total := LocatedTotal(got.located, |got.ids|);
    r := Found(if got.ids == [] then true
               else if total.Some? && offset + pageSize >= total.value then true
               else !addedAny && (|got.ids| < pageSize || Elements(got.ids) == Elements(prevPage)));
  }

  /** What the pass looks at is what ends it. */
  lemma EndsExactly(log0: Log, before: Log, x: Exchange, pageSize: nat, maxIds: nat, page: Answer, prevPage: seq<Id>,
                    addedAny: bool)
    requires |log0| <= |before| && x.reply.Page? && page == AnswerOf(x.reply)
    requires |FirstIds(Returned(before), maxIds)| < maxIds
    requires addedAny <==> FirstIds(Returned(before + [x]), maxIds) != FirstIds(Returned(before), maxIds)
    requires prevPage == if |before| == |log0| then [] else IdsOf(before[|before| - 1])
    ensures var total := LocatedTotal(page.located, |page.ids|);
            WindowEnds(log0, before + [x], |before|, pageSize) <==>
            || page.ids == []
            || (total.Some? && x.request.offset + pageSize >= total.value)
            || (!addedAny && (|page.ids| < pageSize || Elements(page.ids) == Elements(prevPage)))
  {
    var log := before + [x];
    assert log[..|before|] == before && log[|before|] == x;
    assert |before| > |log0| ==> log[|before| - 1] == before[|before| - 1];
    ReturnedNext(before, x);
    NothingNew(Returned(before), x.reply.ids, maxIds);
    if page.ids != [] {
      assert page.ids[0] in Elements(page.ids) && page.ids[0] !in Elements([]);
    }
  }

  /** One window, merged. */
  method ProbePage(server: Server, maxIds: size, ids: seq<Id>, seen: set<Id>, log: Log, offset: nat, pageSize: size,
                   ghost list: seq<Id>, ghost honours: bool)
    returns (r: Outcome<Answer>, ids': seq<Id>, seen': set<Id>, addedAny: bool, log': Log)
    requires Collected(server, maxIds, ids, seen, log) && 0 < pageSize <= INT32_MAX
    ensures Ran(server, log') && |log| <= |log'| <= |log| + 1 && (log' == log <==> offset > INT32_MAX)
    ensures log' != log ==>
              && |log'| > |log| && log' == log + [log'[|log|]]
              && log'[|log|].request == Request(offset, pageSize, DEFAULT_RESPONSE_SIZE)
    ensures r.Threw? && log' != log ==> Refused(r.failure, log')
    ensures r.Found? ==> log' != log && Collected(server, maxIds, ids', seen', log') && (addedAny <==> ids' != ids)
    ensures r.Found? ==> log'[|log|].reply.Page? && r.value == AnswerOf(log'[|log|].reply)
    ensures r.Found? && FixedList(server, list, honours) && ids == list ==> ids' == list
  {
    ids', seen', addedAny := ids, seen, false;
    r, log' := LocatePage(server, log, offset, pageSize, DEFAULT_RESPONSE_SIZE);
    if r.Threw? {
      return;
    }
    ghost var x := log'[|log|];
    ReturnedNext(log, x);
    if FixedList(server, list, honours) && ids == list {
      assert Matches(server(|log|, x.request), x.request, list, honours);
      ProbeOfList(maxIds, log, x, list, honours);
    }
    ids', seen', addedAny := MergeNewIds(ids, seen, r.value.ids, maxIds, Returned(log));
  }

  lemma ProbeOfList(maxIds: nat, log: Log, x: Exchange, list: seq<Id>, honours: bool)
    requires FirstIds(Returned(log), maxIds) == list && Distinct(list)
    requires x.reply.Page? && Matches(x.reply, x.request, list, honours)
    ensures FirstIds(Returned(log + [x]), maxIds) == list
  {
    ReturnedNext(log, x);
    FirstIdsAre(Returned(log), maxIds);
    assert list[..|list|] == list;
    var a, b := Start(list, honours, x.request), End(list, honours, x.request);
    FirstIdsOfSlice(Returned(log), list, |list|, a, b, maxIds);
  }

  // ------------------------------------------------- what probing brings in

  /** From exchange `from` on, every reply comes from one list, offsets honoured. */
  ghost predicate AnswersFrom(log: Log, from: nat, list: seq<Id>) {
    && Distinct(list)
    && forall k :: from <= k < |log| ==> log[k].reply.Page? && Matches(log[k].reply, log[k].request, list, true)
  }

  /** The ids of a window that starts within the list. */
  lemma WindowOf(log: Log, k: nat, list: seq<Id>, a: nat, w: nat)
    requires k < |log| && AnswersFrom(log, k, list)
    requires log[k].request.offset == a < |list| && log[k].request.maxItems == w
    ensures IdsOf(log[k]) == list[a..Min(a + w, |list|)]
    ensures UsableTotal(log[k]).Some? ==> UsableTotal(log[k]).value == |list|
  {
  }

  /** Where a window starts: at zero, or where the one before it ends. */
  lemma {:induction false} WindowStart(log0: Log, log: Log, k: nat, w: nat)
    requires Windows(log0, log, w) && |log0| <= k < |log|
    ensures log[k].request.maxItems == w
    ensures log[k].request.offset == if k == |log0| then 0 else log[k - 1].request.offset + w
    decreases |log|
  {
    if k < |log| - 1 {
      WindowStart(log0, log[..|log| - 1], k, w);
    }
  }

  /** No window ends a pass before the list does. */
  lemma WindowGoesOn(log0: Log, log: Log, k: nat, list: seq<Id>, w: nat)
    requires Windows(log0, log, w) && |log0| <= k < |log| && AnswersFrom(log, |log0|, list) && w > 0
    requires log[k].request.offset + w < |list|
    ensures !WindowEnds(log0, log, k, w)
  {
    WindowStart(log0, log, k, w);
    if k > |log0| {
      WindowStart(log0, log, k - 1, w);
    }
    FullWindow(log0, log, k, list, log[k].request.offset, w);
  }

  lemma FullWindow(log0: Log, log: Log, k: nat, list: seq<Id>, a: nat, w: nat)
    requires |log0| <= k < |log| && AnswersFrom(log, |log0|, list) && w > 0 && a + w < |list|
    requires log[k].request.offset == a && log[k].request.maxItems == w
    requires k > |log0| ==> a >= w && log[k - 1].request.offset == a - w && log[k - 1].request.maxItems == w
    ensures !WindowEnds(log0, log, k, w)
  {
    assert AnswersFrom(log, k, list);
    WindowOf(log, k, list, a, w);
    if k > |log0| {
      assert AnswersFrom(log, k - 1, list);
      WindowOf(log, k - 1, list, a - w, w);
      WindowsDiffer(list, a - w, a, a + w);
    }
    NotEnding(log0, log, k, w);
  }

  lemma NotEnding(log0: Log, log: Log, k: nat, w: nat)
    requires |log0| <= k < |log| && |IdsOf(log[k])| == w > 0
    requires UsableTotal(log[k]).Some? ==> log[k].request.offset + w < UsableTotal(log[k]).value
    requires k > |log0| ==> Elements(IdsOf(log[k - 1])) != Elements(IdsOf(log[k]))
    ensures !WindowEnds(log0, log, k, w)
  {
  }

  /** Neighbouring windows of a list have no id in common. */
  lemma WindowsDiffer(list: seq<Id>, a: nat, b: nat, c: nat)
    requires Distinct(list) && a <= b < c <= |list|
    ensures Elements(list[a..b]) != Elements(list[b..c])
  {
    assert list[b..c][0] == list[b];
    assert list[b] in Elements(list[b..c]);
    assert list[b] !in list[a..b];
  }

  /** A pass with windows of 256 ids that comes to its end below the bound has
      returned every id of a list of up to 65536. */
  lemma PassCovers(log0: Log, log: Log, list: seq<Id>, maxIds: nat)
    requires PassDone(log0, log, 256, maxIds) && |log0| <= |log|
    requires AnswersFrom(log, |log0|, list) && |list| <= 65536
    ensures |FirstIds(Returned(log), maxIds)| >= maxIds || Elements(list) <= Elements(Returned(log))
  {
    if |FirstIds(Returned(log), maxIds)| < maxIds {
      var last := |log| - 1;
      WindowsAre(log0, log, 256);
      if last - |log0| < 255 && log[last].request.offset + 256 < |list| {
        WindowGoesOn(log0, log, last, list, 256);
      }
      forall id | id in Elements(list) ensures id in Elements(Returned(log)) {
        var j :| 0 <= j < |list| && list[j] == id;
        Covered(log0, log, j, list, 256);
      }
    }
  }

  /** What lies before the end of the last window has been returned. */
  lemma {:induction false} Covered(log0: Log, log: Log, j: nat, list: seq<Id>, w: nat)
    requires Windows(log0, log, w) && |log0| < |log| && AnswersFrom(log, |log0|, list)
    requires j < |list| && j < log[|log| - 1].request.offset + w
    ensures list[j] in Elements(Returned(log))
    decreases |log|
  {
    var last, init := |log| - 1, log[..|log| - 1];
    var a := log[last].request.offset;
    WindowStart(log0, log, last, w);
    if j < a {
      assert AnswersFrom(init, |log0|, list);
      Covered(log0, init, j, list, w);
    } else {
      WindowOf(log, last, list, a, w);
      WindowHolds(list, a, w, j);
    }
    ElementsJoin(Returned(init), IdsOf(log[last]));
  }

  lemma WindowHolds(list: seq<Id>, a: nat, w: nat, j: nat)
    requires a <= j < |list| && j < a + w
    ensures list[j] in Elements(list[a..Min(a + w, |list|)])
  {
    assert list[a..Min(a + w, |list|)][j - a] == list[j];
  }

  lemma {:induction false} ReturnedGrows(before: Log, log: Log)
    requires before <= log
    ensures Returned(before) <= Returned(log)
  {
    if |before| == |log| {
      assert before == log;
    } else {
      ReturnedGrows(before, log[..|log| - 1]);
    }
  }

  /** And what follows that pass loses none of it. */
  lemma ProbesCover(log0: Log, a: Log, b: Log, log: Log, list: seq<Id>, maxIds: nat)
    requires log0 <= a <= log && PassDone(log0, a, 256, maxIds)
    requires AnswersFrom(log, |log0|, list) && |list| <= 65536
    ensures var ids := FirstIds(Returned(log), maxIds);
            |ids| == maxIds || Elements(list) <= Elements(ids)
  {
    forall k | |log0| <= k < |a| ensures a[k] == log[k] {
    }
    PassCovers(log0, a, list, maxIds);
    ReturnedGrows(a, log);
    var all, more := Returned(a), Returned(log)[|Returned(a)|..];
    assert Returned(log) == all + more;
    FirstIdsMore(all, more, maxIds);
    FirstIdsAre(Returned(log), maxIds);
    ElementsJoin(all, more);
  }

  /** Three passes of at most 256 windows each. */
  lemma ProbeBound(log0: Log, a: Log, b: Log, log: Log, maxIds: nat)
    requires Probed(log0, a, b, log, maxIds)
    ensures log0 <= a <= b <= log && |log| <= |log0| + 768
  {
    WindowsAre(log0, a, 256);
    WindowsAre(a, b, 64);
    WindowsAre(b, log, 16);
  }

  /** What listing all objects comes to, if the search of the first `searched`
      requests came to `o`: that, if it failed, has `maxIds` ids or is confirmed, and
      otherwise what probing adds, in passes that end with `a`, `b` and the log. */
  ghost predicate Listed(server: Server, maxIds: nat, r: Outcome<seq<Id>>, log: Log, searched: nat, o: Outcome<Located>,
                         a: Log, b: Log) {
    && Ran(server, log) && searched <= |log| <= searched + 768
    && (r.Found? ==> r.value == FirstIds(Returned(log), maxIds))
    && match o
       case Threw(f) => r == Threw(f) && |log| == searched
       case Found(l) =>
         if |l.ids| >= maxIds || l.confirmedComplete then r == Found(l.ids) && |log| == searched
         else
           && |log| > searched && Probed(log[..searched], a, b, log, maxIds)
           && if r.Threw? then Refused(r.failure, log) else ProbedAll(log[..searched], a, b, log, maxIds)
  }

  /** Probing finds what the server has: if, from the first probe on, it answers from
      one list of up to 65536 ids, all of them are returned, or `maxIds`, whatever it
      answered before. */
  ghost predicate FindsAll(list: seq<Id>, maxIds: nat, r: Outcome<seq<Id>>, log: Log, searched: nat) {
    searched < |log| && AnswersFrom(log, searched, list) && |list| <= 65536 ==>
      r.Found? && (|r.value| == maxIds || Elements(list) <= Elements(r.value))
  }

  /** All ids: the search, and probing unless the bound is reached or the search is
      confirmed complete. */
  method OpAll(server: Server, maxIds: size, ghost list: seq<Id>, ghost honours: bool)
    returns (r: Outcome<seq<Id>>, log: Log, ghost paged: nat, ghost searched: nat, ghost o: Outcome<Located>,
             ghost a: Log, ghost b: Log)
    ensures maxIds == 0 ==> r == Found([]) && log == []
    ensures maxIds > 0 ==> searched <= |log| && Searched(server, maxIds, o, log[..searched], paged)
    ensures maxIds > 0 ==> Listed(server, maxIds, r, log, searched, o, a, b) && FindsAll(list, maxIds, r, log, searched)
    ensures FixedList(server, list, honours) && NoneFailed(log) ==> r == Found(list[..Min(maxIds, |list|)])
  {
    if maxIds == 0 {
      return Found([]), [], 0, 0, Found(Located([], {}, true)), [], [];
    }
    var found;
    found, log, paged := LocateAll(server, maxIds, list, honours);
    o, searched, a, b := found, |log|, log, log;
    assert log[..searched] == log;
    if found.Threw? {
      return Threw(found.failure), log, paged, searched, o, a, b;
    }
    SearchCollects(server, maxIds, o, log, paged);
    if |found.value.ids| >= maxIds || found.value.confirmedComplete {
      return Found(found.value.ids), log, paged, searched, o, a, b;
    }
    r, log, a, b := ProbeRest(server, maxIds, found.value, log, list, honours);
  }

  lemma SearchCollects(server: Server, maxIds: nat, o: Outcome<Located>, log: Log, paged: nat)
    requires Searched(server, maxIds, o, log, paged) && o.Found?
    ensures Collected(server, maxIds, o.value.ids, o.value.seen, log)
  {
  }

  /** The probing of an unconfirmed search. */
  method ProbeRest(server: Server, maxIds: size, o: Located, log0: Log, ghost list: seq<Id>, ghost honours: bool)
    returns (r: Outcome<seq<Id>>, log: Log, ghost a: Log, ghost b: Log)
    requires Collected(server, maxIds, o.ids, o.seen, log0) && |o.ids| < maxIds && !o.confirmedComplete
    requires FixedList(server, list, honours) ==> Complete(list, maxIds, Found(o), log0)
    ensures log0 <= log && log[..|log0|] == log0 && Listed(server, maxIds, r, log, |log0|, Found(o), a, b)
    ensures FindsAll(list, maxIds, r, log, |log0|)
    ensures FixedList(server, list, honours) && NoneFailed(log) ==> r == Found(list[..Min(maxIds, |list|)])
  {
    var p;
    assert list[..|list|] == list;
    p, log, a, b := ProbeAll(server, maxIds, o, log0, list, honours);
    AnsweredBefore(log0, log);
    ProbeBound(log0, a, b, log, maxIds);
    assert log[..|log0|] == log0;
    if p.Threw? {
      return Threw(p.failure), log, a, b;
    }
    if AnswersFrom(log, |log0|, list) && |list| <= 65536 {
      ProbesCover(log0, a, b, log, list, maxIds);
    }
    return Found(p.value.ids), log, a, b;
  }
}
