/** The Playwright test of the newest-first order
    (qa_wolf_take_home/tests/index.spec.js): the same collection and pair
    classification as the script, but the titles are read a page at a time,
    loading the next page fails where the script would throw at that page,
    the first out-of-order pair fails the test on the spot, and the test
    passes only when the final error count is zero. */
module EpochTest {
  import opened Text
  import opened Paging
  import opened EpochCheck

  /** `span.getAttribute('title') || null`: an empty title reads as null. */
  function OrNull(title: Option<string>): (r: Option<string>)
    ensures r.Some? ==> r.value != []
    ensures r.Some? <==> title.Some? && title.value != []
  {
    if title.Some? && title.value == [] then None else title
  }

  /** The `|| null` changes nothing for the extraction: `!attribute`
      already rejects the empty title. */
  lemma OrNullSameEpoch(title: Option<string>)
    ensures ExtractEpoch(OrNull(title)) == ExtractEpoch(title)
  {
  }

  /** The batch read of one page's titles: `evaluateAll` over the spans. */
  function Attributes(spans: seq<Option<string>>): (attributes: seq<Option<string>>)
    ensures |attributes| == |spans|
    ensures forall i :: 0 <= i < |spans| ==> attributes[i] == OrNull(spans[i])
  {
    seq(|spans|, i requires 0 <= i < |spans| => OrNull(spans[i]))
  }

  /** Reading the batch instead of each link yields the same epochs. */
  lemma TitlesOfAttributes(spans: seq<Option<string>>, m: nat)
    ensures Titles(Attributes(spans), m, ExtractEpoch) == Titles(spans, m, ExtractEpoch)
  {
    var a := Titles(Attributes(spans), m, ExtractEpoch);
    var b := Titles(spans, m, ExtractEpoch);
    forall i | 0 <= i < |a|
      ensures a[i] == b[i]
    {
      OrNullSameEpoch(spans[i]);
    }
  }

  /** One page: batch-read the titles and run the capped `for` loop over
      them; the page contributes `Math.min(count, maxArticles - collected)`
      entries. */
  method ReadPage(timestamps: seq<Option<nat>>, errorCount: nat, spans: seq<Option<string>>, maxArticles: nat)
    returns (result: seq<Option<nat>>, errors: nat)
    requires |timestamps| < maxArticles
    requires errorCount == Failures(timestamps)
    ensures |result| == |timestamps| + Min(|spans|, maxArticles - |timestamps|) <= maxArticles
    ensures result == timestamps + Titles(spans, maxArticles - |timestamps|, ExtractEpoch)
    ensures errors == Failures(result)
  {
    var attributes := Attributes(spans);
    result, errors := ReadTitles(timestamps, errorCount, attributes, maxArticles);
    TitlesOfAttributes(spans, maxArticles - |timestamps|);
  }

  /** Where the test fails before its validation loop: no age span on the
      first page (the opening `toBeVisible`), a page without age spans (the
      `count === 0` throw), or loading the next page from page `page` with
      `collected` timestamps held: the "More" link is missing or no age link
      shows after the click, rethrown as "Failed to load more articles". */
  datatype Halt = NoAges | EmptyCount(page: nat) | LoadMoreFailed(page: nat, collected: nat)

  /** How the test's collection ends: `maxArticles` timestamps and the
      extraction failures among them, or where it failed. */
  datatype Outcome = Finished(timestamps: seq<Option<nat>>, errorCount: nat) | Halted(halt: Halt)

  /** The test's collection from page `k` on, `timestamps` already held:
      take the page's titles up to the cap, then stop at the cap, or load
      the next page, which fails unless there is a "More" link and the next
      page shows ages. */
  function TestCollectFrom(batches: seq<seq<Option<string>>>, k: nat, timestamps: seq<Option<nat>>, maxArticles: nat,
                           extract: Option<string> -> Option<nat>): Outcome
    requires k >= 1 && |timestamps| < maxArticles
    decreases |batches| + 1 - k
  {
    var spans := PageAt(batches, k);
    if |spans| == 0 then Halted(EmptyCount(k))
    else
      var taken := timestamps + Titles(spans, maxArticles - |timestamps|, extract);
      if |taken| >= maxArticles then Finished(taken, Failures(taken))
      else if !HasMore(batches, k) || |PageAt(batches, k + 1)| == 0 then Halted(LoadMoreFailed(k, |taken|))
      else TestCollectFrom(batches, k + 1, taken, maxArticles, extract)
  }

  /** The test's collection: the first page must show an age, then the
      `while` loop runs from page 1. */
  function TestCollected(batches: seq<seq<Option<string>>>, maxArticles: nat): Outcome
  {
    if |PageAt(batches, 1)| == 0 then Halted(NoAges)
    else if maxArticles == 0 then Finished([], 0)
    else TestCollectFrom(batches, 1, [], maxArticles, ExtractEpoch)
  }

  /** The test's `while` loop: throw on a page without timestamps, read the
      page, and while short click "More" and wait for an age link, either
      failure rethrown. */
  method CollectTimestamps(batches: seq<seq<Option<string>>>, maxArticles: nat) returns (c: Outcome)
    ensures c == TestCollected(batches, maxArticles)
  {
    if |PageAt(batches, 1)| == 0 {
      return Halted(NoAges);
    }
    var timestamps: seq<Option<nat>> := [];
    var errorCount := 0;
    var currentPage := 1;
    while |timestamps| < maxArticles
      invariant currentPage >= 1 && |timestamps| <= maxArticles
      invariant errorCount == Failures(timestamps)
      invariant |timestamps| < maxArticles ==>
        TestCollectFrom(batches, currentPage, timestamps, maxArticles, ExtractEpoch) == TestCollected(batches, maxArticles)
      invariant |timestamps| == maxArticles ==> TestCollected(batches, maxArticles) == Finished(timestamps, errorCount)
      decreases maxArticles - |timestamps|
    {
      var spans := PageAt(batches, currentPage);
      if |spans| == 0 {
        return Halted(EmptyCount(currentPage));
      }
      timestamps, errorCount := ReadPage(timestamps, errorCount, spans, maxArticles);
      if |timestamps| < maxArticles {
        if !HasMore(batches, currentPage) || |PageAt(batches, currentPage + 1)| == 0 {
          return Halted(LoadMoreFailed(currentPage, |timestamps|));
        }
        currentPage := currentPage + 1;
      }
    }
    return Finished(timestamps, errorCount);
  }

  /** From a page that shows ages, the test collects what the script
      collects; where the script throws on the last page or at an empty
      page, the test fails loading more on that last page or on the page
      before the empty one, holding every timestamp reachable from page `k`.
      Both read the same items: the pages are taken to hold no link other
      than the ages whose name contains "ago". */
  lemma {:induction false} TestCollectFromAgrees(batches: seq<seq<Option<string>>>, k: nat, timestamps: seq<Option<nat>>,
                                                 maxArticles: nat, extract: Option<string> -> Option<nat>)
    requires k >= 1 && |timestamps| < maxArticles && |PageAt(batches, k)| > 0
    ensures var t := TestCollectFrom(batches, k, timestamps, maxArticles, extract);
      var c := CollectFrom(batches, k, timestamps, maxArticles, extract);
      (t.Finished? <==> c.Done?)
      && (t.Finished? ==> c == Done(t.timestamps, t.errorCount))
      && (t.Halted? ==>
            t.halt.LoadMoreFailed? && t.halt.collected == |timestamps| + |Stream(batches, k)|
            && (c.stop == LastPage(t.halt.page) || c.stop == EmptyPage(t.halt.page + 1)))
    decreases |batches| + 1 - k
  {
    var spans := PageAt(batches, k);
    var taken := timestamps + Titles(spans, maxArticles - |timestamps|, extract);
    var t := TestCollectFrom(batches, k, timestamps, maxArticles, extract);
    var c := CollectFrom(batches, k, timestamps, maxArticles, extract);
    assert |Stream(batches, k)| == |spans| + |Stream(batches, k + 1)|;
    if |taken| >= maxArticles {
      assert t == Finished(taken, Failures(taken));
      assert c == Done(taken, Failures(taken));
    } else if !HasMore(batches, k) {
      assert t == Halted(LoadMoreFailed(k, |taken|));
      assert c == Thrown(LastPage(k));
      assert Stream(batches, k + 1) == [];
    } else if |PageAt(batches, k + 1)| == 0 {
      assert t == Halted(LoadMoreFailed(k, |taken|));
      assert c == CollectFrom(batches, k + 1, taken, maxArticles, extract);
      assert CollectFrom(batches, k + 1, taken, maxArticles, extract) == Thrown(EmptyPage(k + 1));
      assert Stream(batches, k + 1) == [];
    } else {
      assert t == TestCollectFrom(batches, k + 1, taken, maxArticles, extract);
      assert c == CollectFrom(batches, k + 1, taken, maxArticles, extract);
      TestCollectFromAgrees(batches, k + 1, taken, maxArticles, extract);
    }
  }

  /** The test collects exactly what the script collects and fails exactly
      when the script throws, but in another place: on an empty first page
      at its opening check, and otherwise while loading more, on the last
      page or on the page before the empty one the script stops at, having
      collected every reachable timestamp. It never reaches its own
      `count === 0` throw.
      As above, the script's items and the test's spans are the same. */
  lemma TestCollectedAgrees(batches: seq<seq<Option<string>>>, maxArticles: nat)
    requires maxArticles > 0
    ensures var t := TestCollected(batches, maxArticles);
      var c := Collected(batches, maxArticles);
      (t.Finished? <==> c.Done?)
      && (t.Finished? ==> c == Done(t.timestamps, t.errorCount))
      && (t.Halted? && |PageAt(batches, 1)| == 0 ==> t.halt == NoAges)
      && (t.Halted? && |PageAt(batches, 1)| > 0 ==>
            t.halt.LoadMoreFailed? && t.halt.collected == |Stream(batches, 1)|
            && (c.stop == LastPage(t.halt.page) || c.stop == EmptyPage(t.halt.page + 1)))
  {
    if |PageAt(batches, 1)| > 0 {
      TestCollectFromAgrees(batches, 1, [], maxArticles, ExtractEpoch);
    }
  }

  /** One age on page 1 and an empty page 2: the script throws at page 2,
      which shows nothing, while the test fails loading more from page 1
      with one timestamp held. */
  lemma EmptyNextPage(title: Option<string>)
    ensures TestCollected([[title], []], MaxArticles) == Halted(LoadMoreFailed(1, 1))
    ensures Collected([[title], []], MaxArticles) == Thrown(EmptyPage(2))
  {
    var batches := [[title], []];
    var taken := Titles([title], MaxArticles, ExtractEpoch);
    assert PageAt(batches, 1) == [title] && HasMore(batches, 1) && PageAt(batches, 2) == [];
    assert |taken| == 1;
    assert TestCollectFrom(batches, 1, [], MaxArticles, ExtractEpoch) == Halted(LoadMoreFailed(1, 1));
    assert CollectFrom(batches, 1, [], MaxArticles, ExtractEpoch) == CollectFrom(batches, 2, taken, MaxArticles, ExtractEpoch);
  }

  /** The first out-of-order pair (i, i + 1) with i + 1 < n, if any. */
  function FirstOutOfOrder(e: seq<Option<int>>, n: nat): (r: Option<nat>)
    requires n <= |e|
    ensures r.Some? ==> r.value + 1 < n && Classify(e[r.value], e[r.value + 1]) == OutOfOrder
    ensures r.Some? ==> forall i :: 0 <= i < r.value ==> Classify(e[i], e[i + 1]) != OutOfOrder
    ensures r.None? ==> forall i :: 0 <= i < n - 1 ==> Classify(e[i], e[i + 1]) != OutOfOrder
    ensures r.None? <==> CountClass(e, OutOfOrder, n) == 0
  {
    if n <= 1 then None
    else
      var r := FirstOutOfOrder(e, n - 1);
      if r.Some? then r
      else if Classify(e[n - 2], e[n - 1]) == OutOfOrder then Some(n - 2)
      else None
  }

  /** Once found, the first out-of-order pair stays the first as more pairs
      are looked at. */
  lemma {:induction false} FirstOutOfOrderStays(e: seq<Option<int>>, m: nat, n: nat)
    requires m <= n <= |e|
    requires FirstOutOfOrder(e, m).Some?
    ensures FirstOutOfOrder(e, n) == FirstOutOfOrder(e, m)
    decreases n
  {
    if n > m {
      FirstOutOfOrderStays(e, m, n - 1);
    }
  }

  /** How the test ends: the collection threw, an out-of-order pair failed
      `toBeGreaterThanOrEqual`, the final `expect(errorCount).toBe(0)`
      failed, or it passed with its same-minute count. */
  datatype Verdict =
    | Aborted(halt: Halt)
    | OrderFailed(pair: nat, errorCount: nat)
    | CountFailed(errorCount: nat)
    | Passed(sameMinuteCount: nat)

  /** The verdict of the validation loop on `epochList`, `failures`
      extraction errors already counted. */
  function OrderVerdict(e: seq<Option<int>>, failures: nat): (v: Verdict)
    ensures v.OrderFailed? ==> v.pair + 1 < |e| && v.errorCount == failures + 1
    ensures v.Passed? <==> failures == 0 && CountClass(e, OutOfOrder, |e|) == 0
    ensures v.CountFailed? <==> failures > 0 && CountClass(e, OutOfOrder, |e|) == 0
    ensures !v.Aborted?
  {
    match FirstOutOfOrder(e, |e|)
    case Some(i) => OrderFailed(i, failures + 1)
    case None => if failures == 0 then Passed(CountClass(e, SameMinute, |e|)) else CountFailed(failures)
  }

  /** One step of the validation loop when no earlier pair was out of
      order: an out-of-order pair (i, i + 1) fails the test, any other
      keeps the out-of-order count at zero. */
  lemma OrderStep(e: seq<Option<int>>, failures: nat, i: nat)
    requires i + 1 < |e| && CountClass(e, OutOfOrder, i + 1) == 0
    ensures Classify(e[i], e[i + 1]) == OutOfOrder ==> OrderVerdict(e, failures) == OrderFailed(i, failures + 1)
    ensures Classify(e[i], e[i + 1]) != OutOfOrder ==> CountClass(e, OutOfOrder, i + 2) == 0
  {
    if Classify(e[i], e[i + 1]) == OutOfOrder {
      assert FirstOutOfOrder(e, i + 2) == Some(i);
      FirstOutOfOrderStays(e, i + 2, |e|);
    }
  }

  /** With no pair out of order, the final `expect` decides. */
  lemma OrderClean(e: seq<Option<int>>, failures: nat)
    requires CountClass(e, OutOfOrder, |e|) == 0
    ensures OrderVerdict(e, failures) == if failures == 0 then Passed(CountClass(e, SameMinute, |e|)) else CountFailed(failures)
  {
  }

  /** The validation loop of the test: skip null pairs, fail at the first
      out-of-order pair (after counting it), count same-minute pairs, then
      the final `expect(errorCount).toBe(0)`. */
  method ValidateOrder(epochList: seq<Option<int>>, errorCount: nat) returns (v: Verdict)
    ensures v == OrderVerdict(epochList, errorCount)
  {
    var sameMinuteCount := 0;
    var i := 0;
    while i < |epochList| - 1
      invariant if |epochList| == 0 then i == 0 else i <= |epochList| - 1
      invariant CountClass(epochList, OutOfOrder, if |epochList| == 0 then 0 else i + 1) == 0
      invariant sameMinuteCount == CountClass(epochList, SameMinute, if |epochList| == 0 then 0 else i + 1)
    {
      var current := epochList[i];
      var next := epochList[i + 1];
      if current.None? || next.None? {
        i := i + 1;
        continue;
      }
      OrderStep(epochList, errorCount, i);
      if current.value < next.value {
        return OrderFailed(i, errorCount + 1);
      } else if Abs(current.value - next.value) < MinuteMs {
        sameMinuteCount := sameMinuteCount + 1;
      }
      i := i + 1;
    }
    OrderClean(epochList, errorCount);
    if errorCount != 0 {
      return CountFailed(errorCount);
    }
    return Passed(sameMinuteCount);
  }

  /** The verdict of the whole test on the pages it is shown. */
  function TestVerdict(batches: seq<seq<Option<string>>>): Verdict
  {
    match TestCollected(batches, MaxArticles)
    case Halted(halt) => Aborted(halt)
    case Finished(timestamps, failures) => OrderVerdict(EpochList(timestamps), failures)
  }

  /** The test without the browser: collect, convert, validate. */
  method ValidateHackerNewsOrder(batches: seq<seq<Option<string>>>) returns (v: Verdict)
    ensures v == TestVerdict(batches)
  {
    var c := CollectTimestamps(batches, MaxArticles);
    if c.Halted? {
      return Aborted(c.halt);
    }
    var epochList := EpochList(c.timestamps);
    v := ValidateOrder(epochList, c.errorCount);
  }

  /** The test passes exactly when the script ends with an error count of
      zero, and then both report the same number of same-minute pairs; it
      aborts exactly when the script throws, on an empty first page at its
      opening check and otherwise at a failed "More" step holding every
      reachable timestamp.
      As above, the script's items and the test's spans are the same. */
  lemma TestAgreesWithScript(batches: seq<seq<Option<string>>>)
    ensures var c := Collected(batches, MaxArticles);
      (TestVerdict(batches).Aborted? <==> c.Thrown?)
      && (TestVerdict(batches).Aborted? && |PageAt(batches, 1)| == 0 ==> TestVerdict(batches).halt == NoAges)
      && (TestVerdict(batches).Aborted? && |PageAt(batches, 1)| > 0 ==>
            var h := TestVerdict(batches).halt;
            h.LoadMoreFailed? && h.collected == |Stream(batches, 1)|
            && (c.stop == LastPage(h.page) || c.stop == EmptyPage(h.page + 1)))
      && (TestVerdict(batches).Passed? <==>
            c.Done? && c.errorCount + CountClass(EpochList(c.timestamps), OutOfOrder, |c.timestamps|) == 0)
      && (TestVerdict(batches).Passed? ==>
            TestVerdict(batches).sameMinuteCount == CountClass(EpochList(c.timestamps), SameMinute, |c.timestamps|))
  {
    TestCollectedAgrees(batches, MaxArticles);
  }

  /** The test passes exactly when the collection finishes (enough titles
      are reachable), every title yields an epoch, and no neighbour is newer
      than the one before it. */
  lemma TestPasses(batches: seq<seq<Option<string>>>)
    ensures TestVerdict(batches).Passed? ==> |Stream(batches, 1)| >= MaxArticles
    ensures TestVerdict(batches).Passed? <==>
      Collected(batches, MaxArticles).Done?
      && var ts := Collected(batches, MaxArticles).timestamps;
      (forall j :: 0 <= j < |ts| ==> ts[j].Some?)
      && (forall i :: 0 <= i < |ts| - 1 ==> ts[i].value >= ts[i + 1].value)
  {
    TestCollectedAgrees(batches, MaxArticles);
    CollectedEnds(batches, MaxArticles);
    if Collected(batches, MaxArticles).Done? {
      CleanRun(batches);
    }
  }
}
