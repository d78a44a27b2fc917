/** The epoch-based newest-first check (qa_wolf_take_home/index.js): the
    items of a page are the parents of the links whose name contains "ago",
    an age span's `title` attribute ends with a Unix epoch, a missing or
    malformed one counts as an error, and neighbours are compared in
    milliseconds as out of order, posted in the same minute, or in order. */
module EpochCheck {
  import opened Text
  import opened Paging

  /** `maxArticles`. */
  const MaxArticles: nat := 100

  /** One minute in milliseconds, the same-minute bound. */
  const MinuteMs: nat := 60000

  /** A trailing run is determined by its extent: `n` class characters at
      the end, preceded by a character outside the class or by nothing. */
  lemma {:induction false} TrailingRunIs(s: string, n: nat, k: CharClass)
    requires n <= |s|
    requires forall j :: |s| - n <= j < |s| ==> InClass(s[j], k)
    requires n == |s| || !InClass(s[|s| - n - 1], k)
    ensures TrailingRun(s, k) == n
    decreases n
  {
    if n > 0 {
      var t := s[..|s| - 1];
      assert forall j :: |t| - (n - 1) <= j < |t| ==> t[j] == s[j];
      TrailingRunIs(t, n - 1, k);
    }
  }

  /** `attribute.match(/(\d+)$/)` and `parseInt(epochMatch[1], 10)`: the
      value of the longest run of digits that ends the title, or null for a
      missing or empty title and for one that does not end with a digit. */
  function ExtractEpoch(attribute: Option<string>): (epoch: Option<nat>)
    ensures epoch.Some? <==> attribute.Some? && attribute.value != [] && IsDigit(attribute.value[|attribute.value| - 1])
  {
    if attribute.None? || attribute.value == [] then None
    else
      var s := attribute.value;
      var k := TrailingRun(s, Digit);
      if k == 0 then None
      else
        var run := s[|s| - k..];
        assert AllDigits(run) by {
          forall j | 0 <= j < k ensures IsDigit(run[j]) {
            assert run[j] == s[|s| - k + j];
          }
        }
        Some(DigitsValue(run))
  }

  /** A title made of any text that does not end with a digit, followed by
      a numeral, yields the numeral's value. */
  lemma EpochOfTitle(prefix: string, digits: string)
    requires digits != [] && AllDigits(digits)
    requires prefix == [] || !IsDigit(prefix[|prefix| - 1])
    ensures ExtractEpoch(Some(prefix + digits)) == Some(DigitsValue(digits))
  {
    var s := prefix + digits;
    TrailingRunIs(s, |digits|, Digit);
    assert s[|s| - |digits|..] == digits;
  }

  /** Reading one more digit shifts the value one decimal place. */
  lemma DigitsAppend(a: string, c: char)
    requires AllDigits(a) && IsDigit(c)
    ensures AllDigits(a + [c]) && DigitsValue(a + [c]) == DigitsValue(a) * 10 + DigitValue(c)
  {
    assert (a + [c])[..|a|] == a;
  }

  lemma ExampleEpochValue()
    ensures AllDigits("1763159076") && DigitsValue("1763159076") == 1763159076
  {
    var d := "1763159076";
    assert DigitsValue(d[..0]) == 0;
    assert d[..1] == d[..0] + [d[0]];
    DigitsAppend(d[..0], d[0]);
    assert DigitsValue(d[..1]) == 1;
    assert d[..2] == d[..1] + [d[1]];
    DigitsAppend(d[..1], d[1]);
    assert DigitsValue(d[..2]) == 17;
    assert d[..3] == d[..2] + [d[2]];
    DigitsAppend(d[..2], d[2]);
    assert DigitsValue(d[..3]) == 176;
    assert d[..4] == d[..3] + [d[3]];
    DigitsAppend(d[..3], d[3]);
    assert DigitsValue(d[..4]) == 1763;
    assert d[..5] == d[..4] + [d[4]];
    DigitsAppend(d[..4], d[4]);
    assert DigitsValue(d[..5]) == 17631;
    assert d[..6] == d[..5] + [d[5]];
    DigitsAppend(d[..5], d[5]);
    assert DigitsValue(d[..6]) == 176315;
    assert d[..7] == d[..6] + [d[6]];
    DigitsAppend(d[..6], d[6]);
    assert DigitsValue(d[..7]) == 1763159;
    assert d[..8] == d[..7] + [d[7]];
    DigitsAppend(d[..7], d[7]);
    assert DigitsValue(d[..8]) == 17631590;
    assert d[..9] == d[..8] + [d[8]];
    DigitsAppend(d[..8], d[8]);
    assert DigitsValue(d[..9]) == 176315907;
    assert d[..10] == d[..9] + [d[9]];
    DigitsAppend(d[..9], d[9]);
    assert DigitsValue(d[..10]) == 1763159076;
    assert d[..10] == d;
  }

  /** The title shape the listings carry: the ISO date, a space, the epoch. */
  lemma ExampleTitle()
    ensures ExtractEpoch(Some("2025-11-14T22:24:36 1763159076")) == Some(1763159076)
  {
    assert "2025-11-14T22:24:36 1763159076" == "2025-11-14T22:24:36 " + "1763159076";
    ExampleEpochValue();
    EpochOfTitle("2025-11-14T22:24:36 ", "1763159076");
  }

  /** The number of extraction failures: null entries. */
  function Failures(timestamps: seq<Option<nat>>): (c: nat)
    ensures c <= |timestamps|
  {
    if timestamps == [] then 0
    else Failures(timestamps[..|timestamps| - 1]) + (if timestamps[|timestamps| - 1].None? then 1 else 0)
  }

  /** No failure was counted exactly when every entry holds an epoch. */
  lemma {:induction false} FailuresZero(timestamps: seq<Option<nat>>)
    ensures Failures(timestamps) == 0 <==> forall j :: 0 <= j < |timestamps| ==> timestamps[j].Some?
  {
    if timestamps != [] {
      var init := timestamps[..|timestamps| - 1];
      FailuresZero(init);
      assert forall j :: 0 <= j < |init| ==> init[j] == timestamps[j];
    }
  }

  lemma FailuresNext(timestamps: seq<Option<nat>>, t: Option<nat>)
    ensures Failures(timestamps + [t]) == Failures(timestamps) + (if t.None? then 1 else 0)
  {
    assert (timestamps + [t])[..|timestamps|] == timestamps;
  }

  /** The epochs of the first `m` titles of a page (all of them when it has
      fewer), in order. */
  function Titles(items: seq<Option<string>>, m: nat, extract: Option<string> -> Option<nat>): (r: seq<Option<nat>>)
    ensures |r| == Min(m, |items|)
    ensures forall j :: 0 <= j < |r| ==> r[j] == extract(items[j])
  {
    seq(Min(m, |items|), j requires 0 <= j < Min(m, |items|) => extract(items[j]))
  }

  lemma TitlesNext(items: seq<Option<string>>, i: nat, extract: Option<string> -> Option<nat>)
    requires i < |items|
    ensures Titles(items, i + 1, extract) == Titles(items, i, extract) + [extract(items[i])]
  {
  }

  /** How the collection ends: `maxArticles` timestamps and the number of
      extraction failures among them, or the error thrown where reading
      stopped short: a page without timestamp links, or a page without the
      "More" link (the click fails). */
  datatype Collection = Done(timestamps: seq<Option<nat>>, errorCount: nat) | Thrown(stop: Stop)

  /** The collection from page `k` on, `timestamps` already held: take the
      page's titles up to the cap, then stop at the cap, or follow "More", or
      throw. */
  function CollectFrom(batches: seq<seq<Option<string>>>, k: nat, timestamps: seq<Option<nat>>, maxArticles: nat,
                       extract: Option<string> -> Option<nat>): Collection
    requires k >= 1 && |timestamps| < maxArticles
    decreases |batches| + 1 - k
  {
    var items := PageAt(batches, k);
    if |items| == 0 then Thrown(EmptyPage(k))
    else
      var taken := timestamps + Titles(items, maxArticles - |timestamps|, extract);
      if |taken| >= maxArticles then Done(taken, Failures(taken))
      else if HasMore(batches, k) then CollectFrom(batches, k + 1, taken, maxArticles, extract)
      else Thrown(LastPage(k))
  }

  /** The collection, read from page 1 on. */
  function Collected(batches: seq<seq<Option<string>>>, maxArticles: nat): Collection
  {
    if maxArticles == 0 then Done([], 0) else CollectFrom(batches, 1, [], maxArticles, ExtractEpoch)
  }

  /** The inner `for` loop: extract one epoch per link of the page, null and
      one more error for a link whose title yields none, and stop at
      `maxArticles`. The loop is entered below the cap, so the cap half of
      the `for` condition is checked after each push. */
  method ReadTitles(timestamps: seq<Option<nat>>, errorCount: nat, items: seq<Option<string>>, maxArticles: nat)
    returns (result: seq<Option<nat>>, errors: nat)
    requires |timestamps| < maxArticles
    requires errorCount == Failures(timestamps)
    ensures result == timestamps + Titles(items, maxArticles - |timestamps|, ExtractEpoch)
    ensures errors == Failures(result)
  {
    result, errors := timestamps, errorCount;
    var i := 0;
    while i < |items|
      invariant 0 <= i <= |items|
      invariant |timestamps| + i < maxArticles
      invariant result == timestamps + Titles(items, i, ExtractEpoch)
      invariant errors == Failures(result)
    {
      TitlesNext(items, i, ExtractEpoch);
      var epoch := ExtractEpoch(items[i]);
      FailuresNext(result, epoch);
      if epoch.None? {
        result := result + [None];
        errors := errors + 1;
      } else {
        result := result + [epoch];
      }
      i := i + 1;
      if |result| >= maxArticles {
        assert Titles(items, i, ExtractEpoch) == Titles(items, maxArticles - |timestamps|, ExtractEpoch);
        return;
      }
    }
    assert Titles(items, i, ExtractEpoch) == Titles(items, maxArticles - |timestamps|, ExtractEpoch);
  }

  /** The `while` loop of `sortHackerNewsArticles`: read each page's links,
      throw on a page without any, click "More" while short (which throws on
      the last page), and end with exactly `maxArticles` timestamps. */
  method CollectTimestamps(batches: seq<seq<Option<string>>>, maxArticles: nat) returns (c: Collection)
    ensures c == Collected(batches, maxArticles)
  {
    var timestamps: seq<Option<nat>> := [];
    var errorCount := 0;
    var currentPage := 1;
    while |timestamps| < maxArticles
      invariant currentPage >= 1 && |timestamps| <= maxArticles
      invariant errorCount == Failures(timestamps)
      invariant |timestamps| < maxArticles ==> CollectFrom(batches, currentPage, timestamps, maxArticles, ExtractEpoch) == Collected(batches, maxArticles)
      invariant |timestamps| == maxArticles ==> Collected(batches, maxArticles) == Done(timestamps, errorCount)
      decreases maxArticles - |timestamps|
    {
      var timestampLinks := PageAt(batches, currentPage);
      if |timestampLinks| == 0 {
        return Thrown(EmptyPage(currentPage));
      }
      timestamps, errorCount := ReadTitles(timestamps, errorCount, timestampLinks, maxArticles);
      if |timestamps| < maxArticles {
        if HasMore(batches, currentPage) {
          currentPage := currentPage + 1;
        } else {
          return Thrown(LastPage(currentPage));
        }
      }
    }
    return Done(timestamps, errorCount);
  }

  /** From page `k` on, with `timestamps` held: the collection finishes
      exactly when enough items are reachable, and then holds exactly
      `maxArticles` entries and counts their failures; otherwise it throws
      where reading from page `k` stops. */
  lemma {:induction false} CollectFromEnds(batches: seq<seq<Option<string>>>, k: nat, timestamps: seq<Option<nat>>, maxArticles: nat, extract: Option<string> -> Option<nat>)
    requires k >= 1 && |timestamps| < maxArticles
    ensures var c := CollectFrom(batches, k, timestamps, maxArticles, extract);
      (c.Done? <==> |timestamps| + |Stream(batches, k)| >= maxArticles)
      && (c.Done? ==> |c.timestamps| == maxArticles && c.errorCount == Failures(c.timestamps))
      && (c.Thrown? ==> c.stop == StopOf(batches, k))
    decreases |batches| + 1 - k
  {
    var c := CollectFrom(batches, k, timestamps, maxArticles, extract);
    var items := PageAt(batches, k);
    if |items| > 0 {
      var taken := timestamps + Titles(items, maxArticles - |timestamps|, extract);
      assert |Stream(batches, k)| == |items| + |Stream(batches, k + 1)|;
      if |taken| >= maxArticles {
        assert c == Done(taken, Failures(taken));
      } else if HasMore(batches, k) {
        assert c == CollectFrom(batches, k + 1, taken, maxArticles, extract);
        CollectFromEnds(batches, k + 1, taken, maxArticles, extract);
      } else {
        assert c == Thrown(LastPage(k));
        assert Stream(batches, k + 1) == [];
      }
    } else {
      assert c == Thrown(EmptyPage(k));
    }
  }

  /** The stream from page `k` begins with page `k`'s items ... */
  lemma StreamHead(batches: seq<seq<Option<string>>>, k: nat, t: nat)
    requires k >= 1 && t < |PageAt(batches, k)|
    ensures t < |Stream(batches, k)| && Stream(batches, k)[t] == Entry(k, PageAt(batches, k)[t])
  {
    assert Stream(batches, k) == Tagged(PageAt(batches, k), k) + Stream(batches, k + 1);
  }

  /** ... and goes on with the stream from page `k + 1`. */
  lemma StreamTail(batches: seq<seq<Option<string>>>, k: nat, t: nat)
    requires k >= 1 && |PageAt(batches, k)| > 0 && t < |Stream(batches, k + 1)|
    ensures |PageAt(batches, k)| + t < |Stream(batches, k)|
    ensures Stream(batches, k)[|PageAt(batches, k)| + t] == Stream(batches, k + 1)[t]
  {
    assert Stream(batches, k) == Tagged(PageAt(batches, k), k) + Stream(batches, k + 1);
  }

  /** From page `k` on, a finished collection keeps what was held. */
  lemma {:induction false} CollectFromKeeps(batches: seq<seq<Option<string>>>, k: nat, timestamps: seq<Option<nat>>,
                                            maxArticles: nat, extract: Option<string> -> Option<nat>)
    requires k >= 1 && |timestamps| < maxArticles
    requires CollectFrom(batches, k, timestamps, maxArticles, extract).Done?
    ensures timestamps <= CollectFrom(batches, k, timestamps, maxArticles, extract).timestamps
    decreases |batches| + 1 - k
  {
    var c := CollectFrom(batches, k, timestamps, maxArticles, extract);
    var items := PageAt(batches, k);
    var taken := timestamps + Titles(items, maxArticles - |timestamps|, extract);
    assert |items| > 0 && timestamps <= taken;
    if |taken| < maxArticles {
      assert HasMore(batches, k);
      assert c == CollectFrom(batches, k + 1, taken, maxArticles, extract);
      CollectFromKeeps(batches, k + 1, taken, maxArticles, extract);
      assert taken <= c.timestamps;
    } else {
      assert c == Done(taken, Failures(taken));
      assert c.timestamps == taken;
    }
  }

  /** From page `k` on, a finished collection continues after what was held
      with the epochs of the titles reachable from page `k`, in order: entry
      `j` is checked here. */
  lemma {:induction false} CollectFromTitle(batches: seq<seq<Option<string>>>, k: nat, timestamps: seq<Option<nat>>,
                                            maxArticles: nat, j: nat, extract: Option<string> -> Option<nat>)
    requires k >= 1 && |timestamps| <= j && |timestamps| < maxArticles
    requires CollectFrom(batches, k, timestamps, maxArticles, extract).Done?
    requires j < |CollectFrom(batches, k, timestamps, maxArticles, extract).timestamps|
    ensures j - |timestamps| < |Stream(batches, k)|
    ensures CollectFrom(batches, k, timestamps, maxArticles, extract).timestamps[j] == extract(Stream(batches, k)[j - |timestamps|].raw)
    decreases |batches| + 1 - k
  {
    var c := CollectFrom(batches, k, timestamps, maxArticles, extract);
    var items := PageAt(batches, k);
    var taken := timestamps + Titles(items, maxArticles - |timestamps|, extract);
    assert |items| > 0;
    if j < |taken| {
      if |taken| < maxArticles {
        assert HasMore(batches, k);
        assert c == CollectFrom(batches, k + 1, taken, maxArticles, extract);
        CollectFromKeeps(batches, k + 1, taken, maxArticles, extract);
      } else {
        assert c == Done(taken, Failures(taken));
      }
      assert c.timestamps[j] == taken[j] == extract(items[j - |timestamps|]);
      StreamHead(batches, k, j - |timestamps|);
    } else {
      CollectFromTitle(batches, k + 1, taken, maxArticles, j, extract);
      StreamTail(batches, k, j - |taken|);
    }
  }

  /** Reading that stops at an empty page stops at a page that shows nothing. */
  lemma {:induction false} StopOfEmpty(batches: seq<seq<Option<string>>>, k: nat)
    requires k >= 1
    ensures StopOf(batches, k).EmptyPage? ==> |PageAt(batches, StopOf(batches, k).page)| == 0
    decreases |batches| + 1 - k
  {
    if |PageAt(batches, k)| > 0 && HasMore(batches, k) {
      StopOfEmpty(batches, k + 1);
    }
  }

  /** The collection finishes exactly when `maxArticles` items are reachable
      from page 1, and then holds exactly `maxArticles` entries and counts
      their failures; otherwise the error names the page where reading
      stopped: a page showing nothing, or the last page. */
  lemma CollectedEnds(batches: seq<seq<Option<string>>>, maxArticles: nat)
    ensures var c := Collected(batches, maxArticles);
      (c.Done? <==> |Stream(batches, 1)| >= maxArticles)
      && (c.Done? ==> |c.timestamps| == maxArticles && c.errorCount == Failures(c.timestamps))
      && (c.Thrown? && c.stop.LastPage? ==> c.stop.page == |batches|)
      && (c.Thrown? && c.stop.EmptyPage? ==> |PageAt(batches, c.stop.page)| == 0)
  {
    if maxArticles > 0 {
      CollectFromEnds(batches, 1, [], maxArticles, ExtractEpoch);
    }
    StreamEndsAtStop(batches, 1);
    StopOfEmpty(batches, 1);
  }

  /** A finished collection holds the epochs of the first titles reachable
      from page 1, in order. */
  lemma CollectedTitles(batches: seq<seq<Option<string>>>, maxArticles: nat, j: nat)
    requires Collected(batches, maxArticles).Done? && j < |Collected(batches, maxArticles).timestamps|
    ensures j < |Stream(batches, 1)|
    ensures Collected(batches, maxArticles).timestamps[j] == ExtractEpoch(Stream(batches, 1)[j].raw)
  {
    if maxArticles > 0 {
      CollectFromTitle(batches, 1, [], maxArticles, j, ExtractEpoch);
    }
  }

  /** `epochList`: null stays null, an epoch in seconds becomes milliseconds. */
  function EpochList(timestamps: seq<Option<nat>>): (r: seq<Option<int>>)
    ensures |r| == |timestamps|
    ensures forall j :: 0 <= j < |r| ==> (r[j].Some? <==> timestamps[j].Some?)
    ensures forall j :: 0 <= j < |r| && r[j].Some? ==> r[j].value == timestamps[j].value * 1000
  {
    seq(|timestamps|, j requires 0 <= j < |timestamps| =>
      if timestamps[j].None? then None else Some(timestamps[j].value * 1000))
  }

  /** `Math.abs`. */
  function Abs(x: int): nat { if x < 0 then -x else x }

  /** The verdict on one pair of neighbours. */
  datatype PairClass = Skipped | OutOfOrder | SameMinute | InOrder

  /** One step of the validation loop: skip a pair with a null side, an
      older article before a newer one is out of order, neighbours less than
      a minute apart are in the same minute, anything else is in order. */
  function Classify(current: Option<int>, next: Option<int>): (c: PairClass)
    ensures c == Skipped <==> current.None? || next.None?
    ensures c == OutOfOrder <==> current.Some? && next.Some? && current.value < next.value
    ensures c == SameMinute <==> current.Some? && next.Some? && 0 <= current.value - next.value < MinuteMs
    ensures c == InOrder <==> current.Some? && next.Some? && current.value - next.value >= MinuteMs
  {
    if current.None? || next.None? then Skipped
    else if current.value < next.value then OutOfOrder
    else if Abs(current.value - next.value) < MinuteMs then SameMinute
    else InOrder
  }

  /** Two equal timestamps are in the same minute, not out of order. */
  lemma EqualIsSameMinute(t: int)
    ensures Classify(Some(t), Some(t)) == SameMinute
  {
  }

  /** On epochs in seconds turned into milliseconds, a pair is out of order
      exactly when the first epoch is smaller, and in the same minute exactly
      when the first is at most 59 seconds later. */
  lemma ClassifySeconds(a: nat, b: nat)
    ensures Classify(Some(a * 1000), Some(b * 1000)) == OutOfOrder <==> a < b
    ensures Classify(Some(a * 1000), Some(b * 1000)) == SameMinute <==> b <= a < b + 60
  {
  }

  /** The number of pairs (i, i + 1) with i + 1 < n in class `c`. */
  function CountClass(e: seq<Option<int>>, c: PairClass, n: nat): nat
    requires n <= |e|
  {
    if n <= 1 then 0
    else CountClass(e, c, n - 1) + (if Classify(e[n - 2], e[n - 1]) == c then 1 else 0)
  }

  /** The four classes split the n - 1 pairs among them. */
  lemma {:induction false} ClassesPartition(e: seq<Option<int>>, n: nat)
    requires 1 <= n <= |e|
    ensures CountClass(e, Skipped, n) + CountClass(e, OutOfOrder, n)
      + CountClass(e, SameMinute, n) + CountClass(e, InOrder, n) == n - 1
  {
    if n > 1 {
      ClassesPartition(e, n - 1);
    }
  }

  /** No pair is out of order exactly when every neighbour with both
      timestamps present is no newer than the one before it. */
  lemma {:induction false} NoneOutOfOrder(e: seq<Option<int>>, n: nat)
    requires n <= |e|
    ensures CountClass(e, OutOfOrder, n) == 0 <==>
      forall i :: 0 <= i < n - 1 && e[i].Some? && e[i + 1].Some? ==> e[i].value >= e[i + 1].value
  {
    if n > 1 {
      NoneOutOfOrder(e, n - 1);
    }
  }

  /** The validation loop: count the same-minute pairs, and add one error
      per out-of-order pair to the errors already counted. */
  method CheckPairs(epochList: seq<Option<int>>, errorCount: nat) returns (sameMinuteCount: nat, errors: nat)
    ensures sameMinuteCount == CountClass(epochList, SameMinute, |epochList|)
    ensures errors == errorCount + CountClass(epochList, OutOfOrder, |epochList|)
  {
    sameMinuteCount, errors := 0, errorCount;
    var i := 0;
    while i < |epochList| - 1
      invariant if |epochList| == 0 then i == 0 else i <= |epochList| - 1
      invariant sameMinuteCount == CountClass(epochList, SameMinute, if |epochList| == 0 then 0 else i + 1)
      invariant errors == errorCount + CountClass(epochList, OutOfOrder, if |epochList| == 0 then 0 else i + 1)
    {
      var current := epochList[i];
      var next := epochList[i + 1];
      if current.None? || next.None? {
        i := i + 1;
        continue;
      }
      if current.value < next.value {
        errors := errors + 1;
      } else if Abs(current.value - next.value) < MinuteMs {
        sameMinuteCount := sameMinuteCount + 1;
      }
      i := i + 1;
    }
  }

  /** What the script ends with: the error it throws, or the two counters
      of its summary line. */
  datatype Run = Failed(stop: Stop) | Summary(sameMinuteCount: nat, errorCount: nat)

  /** `sortHackerNewsArticles` without the browser: collect, convert, check. */
  method SortHackerNewsArticles(batches: seq<seq<Option<string>>>) returns (r: Run)
    ensures var c := Collected(batches, MaxArticles);
      match c
      case Thrown(stop) => r == Failed(stop)
      case Done(timestamps, failures) =>
        r == Summary(CountClass(EpochList(timestamps), SameMinute, |timestamps|),
                     failures + CountClass(EpochList(timestamps), OutOfOrder, |timestamps|))
  {
    var c := CollectTimestamps(batches, MaxArticles);
    if c.Thrown? {
      return Failed(c.stop);
    }
    var epochList := EpochList(c.timestamps);
    var sameMinuteCount, errorCount := CheckPairs(epochList, c.errorCount);
    return Summary(sameMinuteCount, errorCount);
  }

  /** The final error count is zero exactly when every title yielded an
      epoch and no neighbour is newer than the one before it. */
  lemma CleanRun(batches: seq<seq<Option<string>>>)
    requires Collected(batches, MaxArticles).Done?
    ensures var c := Collected(batches, MaxArticles);
      var e := EpochList(c.timestamps);
      c.errorCount + CountClass(e, OutOfOrder, |e|) == 0 <==>
        (forall j :: 0 <= j < |c.timestamps| ==> c.timestamps[j].Some?)
        && (forall i :: 0 <= i < |c.timestamps| - 1 ==> c.timestamps[i].value >= c.timestamps[i + 1].value)
  {
    var c := Collected(batches, MaxArticles);
    var e := EpochList(c.timestamps);
    CollectedEnds(batches, MaxArticles);
    NoneOutOfOrder(e, |e|);
    FailuresZero(c.timestamps);
    forall i | 0 <= i < |c.timestamps| - 1 && c.timestamps[i].Some? && c.timestamps[i + 1].Some?
      ensures e[i].value >= e[i + 1].value <==> c.timestamps[i].value >= c.timestamps[i + 1].value
    {
      ScaleOrder(c.timestamps[i].value, c.timestamps[i + 1].value);
    }
  }

  lemma ScaleOrder(a: nat, b: nat)
    ensures a * 1000 >= b * 1000 <==> a >= b
  {
  }
}
