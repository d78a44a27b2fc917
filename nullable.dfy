/** The third dashboard draft of the newest-first check
    (QA-Engineer-Practice/082025/index.js): ages are read case-insensitively
    and an unreadable age is null, a pair with a null side is a violation of
    its own, an empty list is invalid, and each collected article carries a
    flag saying whether its age passed the format check. */
module NullableDraft {
  import opened Text
  import opened RelativeTime
  import opened Paging

  /** `CONFIG.TARGET_ARTICLES`. */
  const TargetArticles: nat := 100

  /** `TIME_TOLERANCE`, in minutes. */
  const TimeTolerance: nat := 2

  /** One collected listing: its 1-based position, the age text (null when
      missing or malformed), the page and whether the text was kept. */
  datatype Article = Article(index: nat, timestamp: Option<string>, page: nat, valid: bool)

  /** The first match of the search holds a unit word that lower-cases to a
      unit name. */
  lemma {:induction false} SearchUnitKnown(s: string, p: nat)
    requires p <= |s| && Search(s, p, true).Some?
    ensures UnitNamed(Lower(Search(s, p, true).value.unit)).Some?
    decreases |s| - p
  {
    if MatchAt(s, p, true).Some? {
      UnitIsKnown(s, p, true);
    } else {
      SearchUnitKnown(s, p + 1);
    }
  }

  /** `parseTimeToMinutes`: the first age anywhere in the text, letters in
      any case, in minutes; null for a missing or empty text and for a text
      without an age. */
  function ParseTimeToMinutes(timeText: Option<string>): (m: Option<nat>)
    ensures m.Some? <==> timeText.Some? && timeText.value != [] && Search(timeText.value, 0, true).Some?
  {
    if timeText.None? || timeText.value == [] then None
    else
      match Search(timeText.value, 0, true)
      case None => None
      case Some(found) =>
        SearchUnitKnown(timeText.value, 0);
        match UnitNamed(Lower(found.unit))
        case None => None
        case Some(u) => Some(ToMinutes(DigitsValue(found.digits), u))
  }

  /** A unit word shown in either case lower-cases to its name. */
  lemma ShownNamesUnit(u: Unit, caps: bool)
    ensures UnitNamed(Lower(Shown(u, caps))) == Some(u)
  {
    ShownSpells(u, caps, true);
    assert Lower(Shown(u, caps)) == UnitWord(u);
  }

  lemma ParseRenderedUnit(n: nat, u: Unit, plural: bool, caps: bool)
    ensures ParseTimeToMinutes(Some(Render(Numeral(n), u, plural, caps))).Some?
    ensures ParseTimeToMinutes(Some(Render(Numeral(n), u, plural, caps))).value == ToMinutes(n, u)
  {
    var s := Render(Numeral(n), u, plural, caps);
    assert Search(s, 0, true) == Some(Match(Numeral(n), Shown(u, caps))) by {
      NumeralValue(n);
      RenderMatches(Numeral(n), u, plural, caps, true);
    }
    assert s != [] by {
      RenderBlank(Numeral(n), u, plural, caps);
    }
    ShownNamesUnit(u, caps);
    NumeralValue(n);
  }

  /** "N minute(s) ago", "N hour(s) ago" and "N day(s) ago" read as N, 60 N
      and 1440 N minutes, whatever the case of the unit word. */
  lemma ParseRendered(n: nat, plural: bool, caps: bool)
    ensures ParseTimeToMinutes(Some(Render(Numeral(n), Minute, plural, caps))).Some?
    ensures ParseTimeToMinutes(Some(Render(Numeral(n), Minute, plural, caps))).value == n
    ensures ParseTimeToMinutes(Some(Render(Numeral(n), Hour, plural, caps))).Some?
    ensures ParseTimeToMinutes(Some(Render(Numeral(n), Hour, plural, caps))).value == 60 * n
    ensures ParseTimeToMinutes(Some(Render(Numeral(n), Day, plural, caps))).Some?
    ensures ParseTimeToMinutes(Some(Render(Numeral(n), Day, plural, caps))).value == 1440 * n
  {
    ParseRenderedUnit(n, Minute, plural, caps);
    ParseRenderedUnit(n, Hour, plural, caps);
    ParseRenderedUnit(n, Day, plural, caps);
  }

  /** Null, the empty text and a text without a digit read as null. */
  lemma ParseUnreadable(s: string)
    requires forall j :: 0 <= j < |s| ==> !IsDigit(s[j])
    ensures ParseTimeToMinutes(None).None?
    ensures ParseTimeToMinutes(Some([])).None?
    ensures ParseTimeToMinutes(Some(s)).None?
  {
    NoDigitsNoMatch(s, true);
  }

  /** A violation: the list is empty, a pair has an unreadable side (named
      by `articleIndex`), or the article at `position` looks newer than the
      one before it. */
  datatype Violation = NoArticles | Unparseable(articleIndex: nat) | OutOfOrder(position: nat)

  /** What the loop records for the pair (i - 1, i), ages read by `minutes`. */
  function PairViolation(articles: seq<Article>, minutes: Option<string> -> Option<nat>, i: nat): Option<Violation>
    requires 1 <= i < |articles|
  {
    var currentMinutes := minutes(articles[i].timestamp);
    var previousMinutes := minutes(articles[i - 1].timestamp);
    if currentMinutes.None? || previousMinutes.None? then Some(Unparseable(i))
    else if previousMinutes.value > currentMinutes.value + TimeTolerance then Some(OutOfOrder(i))
    else None
  }

  /** The pair a recorded violation is about. */
  function PairOf(v: Violation): nat
  {
    match v
    case NoArticles => 0
    case Unparseable(i) => i
    case OutOfOrder(i) => i
  }

  /** The violations of the pairs among the first `n` articles, in order. */
  function Violations(articles: seq<Article>, minutes: Option<string> -> Option<nat>, n: nat): seq<Violation>
    requires n <= |articles|
  {
    if n <= 1 then []
    else
      var v := PairViolation(articles, minutes, n - 1);
      Violations(articles, minutes, n - 1) + (if v.Some? then [v.value] else [])
  }

  /** Every recorded violation is about a pair (i - 1, i) with i < n: an
      unreadable side or an order break. The pairs are increasing, so there is
      at most one entry per pair and at most n - 1 entries. */
  lemma {:induction false} ViolationsSound(articles: seq<Article>, minutes: Option<string> -> Option<nat>, n: nat)
    requires n <= |articles|
    ensures forall x :: 0 <= x < |Violations(articles, minutes, n)| ==>
      1 <= PairOf(Violations(articles, minutes, n)[x]) < n
      && PairViolation(articles, minutes, PairOf(Violations(articles, minutes, n)[x]))
         == Some(Violations(articles, minutes, n)[x])
    ensures forall x, y :: 0 <= x < y < |Violations(articles, minutes, n)| ==>
      PairOf(Violations(articles, minutes, n)[x]) < PairOf(Violations(articles, minutes, n)[y])
    ensures |Violations(articles, minutes, n)| <= if n == 0 then 0 else n - 1
  {
    if n > 1 {
      ViolationsSound(articles, minutes, n - 1);
    }
  }

  /** Every pair (i - 1, i) with i < n that has an unreadable side or breaks
      the order is recorded. */
  lemma {:induction false} ViolationsComplete(articles: seq<Article>, minutes: Option<string> -> Option<nat>, n: nat, i: nat)
    requires n <= |articles| && 1 <= i < n
    requires PairViolation(articles, minutes, i).Some?
    ensures PairViolation(articles, minutes, i).value in Violations(articles, minutes, n)
  {
    if i < n - 1 {
      ViolationsComplete(articles, minutes, n - 1, i);
    }
  }

  /** What `validateSorting` returns for the whole list, ages read by
      `minutes`: one `NoArticles` entry for an empty list, the pair
      violations otherwise. */
  function Outcome(articles: seq<Article>, minutes: Option<string> -> Option<nat>): seq<Violation>
  {
    if |articles| == 0 then [NoArticles] else Violations(articles, minutes, |articles|)
  }

  /** The loop of `validateSorting`, with the age reading as a parameter. */
  method ValidateSortingWith(articles: seq<Article>, minutes: Option<string> -> Option<nat>)
    returns (isValid: bool, violations: seq<Violation>)
    ensures violations == Outcome(articles, minutes)
    ensures isValid <==> violations == []
  {
    violations := [];
    isValid := true;
    if |articles| == 0 {
      return false, [NoArticles];
    }
    var i := 1;
    while i < |articles|
      invariant 1 <= i <= |articles|
      invariant violations == Violations(articles, minutes, i)
      invariant isValid <==> violations == []
    {
      var currentMinutes := minutes(articles[i].timestamp);
      var previousMinutes := minutes(articles[i - 1].timestamp);
      if currentMinutes.None? || previousMinutes.None? {
        violations := violations + [Unparseable(i)];
        isValid := false;
        i := i + 1;
        continue;
      }
      if previousMinutes.value > currentMinutes.value + TimeTolerance {
        violations := violations + [OutOfOrder(i)];
        isValid := false;
      }
      i := i + 1;
    }
  }

  /** `validateSorting`: ages are read by `parseTimeToMinutes`. */
  method ValidateSorting(articles: seq<Article>) returns (isValid: bool, violations: seq<Violation>)
    ensures violations == Outcome(articles, ParseTimeToMinutes)
    ensures isValid <==> violations == []
  {
    isValid, violations := ValidateSortingWith(articles, ParseTimeToMinutes);
  }

  /** An empty list is invalid with the single `NoArticles` entry; a single
      article is valid; otherwise the list is valid exactly when no pair has
      an unreadable side or breaks the order. */
  lemma OutcomeValid(articles: seq<Article>, minutes: Option<string> -> Option<nat>)
    ensures |articles| == 0 ==> Outcome(articles, minutes) == [NoArticles]
    ensures |articles| == 1 ==> Outcome(articles, minutes) == []
    ensures |articles| > 0 ==>
      (Outcome(articles, minutes) == [] <==>
       forall i :: 1 <= i < |articles| ==> PairViolation(articles, minutes, i).None?)
  {
    if |articles| > 0 {
      var n := |articles|;
      ViolationsSound(articles, minutes, n);
      if Outcome(articles, minutes) == [] {
        forall i | 1 <= i < n ensures PairViolation(articles, minutes, i).None? {
          if PairViolation(articles, minutes, i).Some? {
            ViolationsComplete(articles, minutes, n, i);
          }
        }
      } else {
        var v := Outcome(articles, minutes)[0];
        assert PairViolation(articles, minutes, PairOf(v)).Some?;
      }
    }
  }

  /** A null age makes both pairs it belongs to unparseable. */
  lemma NullPair(articles: seq<Article>, i: nat)
    requires 1 <= i < |articles|
    requires articles[i].timestamp.None? || articles[i - 1].timestamp.None?
    ensures PairViolation(articles, ParseTimeToMinutes, i) == Some(Unparseable(i))
  {
  }

  /** Between two listed ages, in any case, the order test reads the rendered
      values: "n units ago" after "m units ago" is an order violation exactly
      when it is more than two minutes younger, and never unparseable. */
  lemma RenderedPair(articles: seq<Article>, i: nat, n: nat, u: Unit, p: bool, c: bool, m: nat, v: Unit, q: bool, d: bool)
    requires 1 <= i < |articles|
    requires articles[i].timestamp == Some(Render(Numeral(n), u, p, c))
    requires articles[i - 1].timestamp == Some(Render(Numeral(m), v, q, d))
    ensures PairViolation(articles, ParseTimeToMinutes, i) ==
      if ToMinutes(n, u) + TimeTolerance < ToMinutes(m, v) then Some(OutOfOrder(i)) else None
  {
    ParseRenderedUnit(n, u, p, c);
    ParseRenderedUnit(m, v, q, d);
  }

  /** The format check of the collector: the trimmed age text when it holds
      an age anywhere, letters in any case, and null otherwise. */
  function StoredText(raw: Option<string>): (t: Option<string>)
    ensures t.Some? ==> raw.Some? && t.value == Trim(raw.value)
  {
    if raw.Some? && Search(Trim(raw.value), 0, true).Some? then Some(Trim(raw.value)) else None
  }

  /** A text the collector keeps always reads as an age, and the flag it
      stores says whether it kept one. */
  lemma StoredReads(raw: Option<string>)
    ensures ParseTimeToMinutes(StoredText(raw)).Some? <==> StoredText(raw).Some?
    ensures StoredText(raw).Some? <==> raw.Some? && ParseTimeToMinutes(Some(Trim(raw.value))).Some?
  {
    if raw.Some? {
      var t := Trim(raw.value);
      if t == [] {
        NoDigitsNoMatch(t, true);
      }
    }
  }

  function ArticleOf(j: nat, e: Entry<Option<string>>): Article
  {
    Article(j + 1, StoredText(e.raw), e.page, StoredText(e.raw).Some?)
  }

  /** The first `n` rows of a stream as articles numbered from 1. */
  function ArticlesOf(s: seq<Entry<Option<string>>>, n: nat): (a: seq<Article>)
    requires n <= |s|
    ensures |a| == n
  {
    Records(s, n, ArticleOf)
  }

  /** The articles the collector returns: the first `target` rows read from
      page 1 on, numbered from 1. */
  function Collected(batches: seq<seq<Option<string>>>, target: nat): seq<Article>
  {
    var s := Stream(batches, 1);
    ArticlesOf(s, Min(target, |s|))
  }

  /** The inner `for` loop of the collector: push one article per row of the
      page, numbered after those already held, and stop once the target is
      reached. `s` is the whole stream the rows are part of. */
  method ReadPage(articles: seq<Article>, items: seq<Option<string>>, page: nat, target: nat,
                  ghost s: seq<Entry<Option<string>>>)
    returns (result: seq<Article>)
    requires |articles| < target && |articles| + |items| <= |s|
    requires forall t :: 0 <= t < |items| ==> s[|articles| + t] == Entry(page, items[t])
    requires articles == ArticlesOf(s, |articles|)
    ensures |result| == Min(target, |articles| + |items|)
    ensures result == ArticlesOf(s, |result|)
  {
    result := articles;
    var i := 0;
    while i < |items|
      invariant 0 <= i <= |items|
      invariant |result| == |articles| + i < target
      invariant result == ArticlesOf(s, |result|)
    {
      assert s[|result|] == Entry(page, items[i]);
      RecordsNext(s, |result|, ArticleOf);
      var timeText := StoredText(items[i]);
      result := result + [Article(|result| + 1, timeText, page, timeText.Some?)];
      i := i + 1;
      if |result| >= target {
        return;
      }
    }
  }

  /** The number of articles whose age failed the format check. */
  function InvalidCount(articles: seq<Article>): (c: nat)
    ensures c <= |articles|
    ensures c == 0 <==> forall j :: 0 <= j < |articles| ==> articles[j].valid
  {
    if articles == [] then 0
    else InvalidCount(articles[..|articles| - 1]) + (if articles[|articles| - 1].valid then 0 else 1)
  }

  /** The accumulation loop of the dashboard run: read each page, push one
      article per row and stop at `target`, follow "More" while short, stop at
      a page without rows or without the link, and keep the first `target`. */
  method CollectArticles(batches: seq<seq<Option<string>>>, target: nat) returns (articles: seq<Article>)
    ensures articles == Collected(batches, target)
  {
    ghost var s := Stream(batches, 1);
    articles := [];
    var currentPage := 1;
    while |articles| < target
      invariant currentPage >= 1
      invariant |articles| <= target && |articles| <= |s|
      invariant |articles| < target ==> s[|articles|..] == Stream(batches, currentPage)
      invariant articles == ArticlesOf(s, |articles|)
      decreases target - |articles|
    {
      var articleElements := PageAt(batches, currentPage);
      if |articleElements| == 0 {
        break;
      }
      StreamSplit(s, |articles|, batches, currentPage);
      ghost var base := |articles|;
      articles := ReadPage(articles, articleElements, currentPage, target, s);
      if |articles| < target {
        StreamNext(s, base, batches, currentPage, |articles|);
        if HasMore(batches, currentPage) {
          currentPage := currentPage + 1;
        } else {
          break;
        }
      }
    }
    articles := articles[..Min(target, |articles|)];
    assert |articles| == Min(target, |s|);
  }

  /** The data-quality checkpoint after collection: whether fewer than
      `target` articles were collected, and how many of them lost their age,
      counted one article at a time as `filter(a => !a.valid).length` does;
      the count is zero exactly when every article kept its age. */
  method Checkpoint(articles: seq<Article>, target: nat) returns (incomplete: bool, invalidCount: nat)
    ensures incomplete <==> |articles| < target
    ensures invalidCount == InvalidCount(articles) <= |articles|
    ensures invalidCount == 0 <==> forall j :: 0 <= j < |articles| ==> articles[j].valid
  {
    incomplete := |articles| < target;
    invalidCount := 0;
    var i := 0;
    while i < |articles|
      invariant 0 <= i <= |articles|
      invariant invalidCount == InvalidCount(articles[..i])
    {
      assert articles[..i + 1][..i] == articles[..i];
      if !articles[i].valid {
        invalidCount := invalidCount + 1;
      }
      i := i + 1;
    }
    assert articles[..i] == articles;
  }

  /** Collected articles are numbered 1, 2, ... without gaps, never exceed
      the target, and come from pages 1, 2, ... in order. */
  lemma {:induction false} CollectedShape(batches: seq<seq<Option<string>>>, target: nat)
    ensures var a := Collected(batches, target);
      |a| <= target
      && (forall j :: 0 <= j < |a| ==> a[j].index == j + 1)
      && (a != [] ==> a[0].page == 1)
      && (forall j :: 0 < j < |a| ==> a[j - 1].page <= a[j].page <= a[j - 1].page + 1)
  {
    StreamPages(batches, 1);
  }

  /** Each collected article is flagged valid exactly when it holds an age,
      that age is the trimmed row text and reads as minutes, and the row
      text is dropped exactly when its trimmed form holds no age. */
  lemma CollectedReadable(batches: seq<seq<Option<string>>>, target: nat, j: nat)
    requires j < |Collected(batches, target)|
    ensures var a := Collected(batches, target)[j];
      var raw := Stream(batches, 1)[j].raw;
      (a.valid <==> a.timestamp.Some?)
      && (a.timestamp.Some? <==> ParseTimeToMinutes(a.timestamp).Some?)
      && (a.timestamp.Some? <==> raw.Some? && ParseTimeToMinutes(Some(Trim(raw.value))).Some?)
      && (a.timestamp.Some? ==> a.timestamp.value == Trim(raw.value))
  {
    StoredReads(Stream(batches, 1)[j].raw);
  }

  /** No age was dropped exactly when every collected row held a text
      whose trimmed form reads as an age; the collection is incomplete only
      when the rows ran out. */
  lemma CollectedCounts(batches: seq<seq<Option<string>>>, target: nat)
    ensures var a := Collected(batches, target);
      var s := Stream(batches, 1);
      (InvalidCount(a) == 0 <==>
        forall j :: 0 <= j < |a| ==> s[j].raw.Some? && ParseTimeToMinutes(Some(Trim(s[j].raw.value))).Some?)
      && (|a| < target ==> |a| == |s|)
  {
    var a := Collected(batches, target);
    var s := Stream(batches, 1);
    if InvalidCount(a) == 0 {
      forall j | 0 <= j < |a|
        ensures s[j].raw.Some? && ParseTimeToMinutes(Some(Trim(s[j].raw.value))).Some?
      {
        CollectedReadable(batches, target, j);
      }
    } else {
      var j :| 0 <= j < |a| && !a[j].valid;
      CollectedReadable(batches, target, j);
    }
  }
}
