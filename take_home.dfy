/** The first dashboard draft of the newest-first check
    (QA-Engineer-Practice/qa_wolf_take_home/index.js): ages are read as
    minutes, with 0 for anything unreadable, and neighbours may disagree by up
    to two minutes. */
module TakeHomeDraft {
  import opened Text
  import opened RelativeTime
  import opened Paging

  /** `CONFIG.TARGET_ARTICLES`. */
  const TargetArticles: nat := 100

  /** `TIME_TOLERANCE`, in minutes. */
  const TimeTolerance: nat := 2

  /** The placeholder stored for a row without an age element. */
  const NoTimestamp: string := "no timestamp found"

  /** One collected listing: its 1-based position, the age text and the page. */
  datatype Article = Article(index: nat, timestamp: string, page: nat)

  /** `parseTimeToMinutes`: the first age in the text, case-sensitive, in
      minutes; 0 for empty text, for text without an age and for a unit the
      comparisons do not know. */
  function ParseTimeToMinutes(timeText: string): (m: nat)
    ensures Search(timeText, 0, false).None? ==> m == 0
  {
    if timeText == [] then 0
    else
      match Search(timeText, 0, false)
      case None => 0
      case Some(found) =>
        match UnitNamed(found.unit)
        case None => 0
        case Some(u) => ToMinutes(DigitsValue(found.digits), u)
  }

  /** "N minute(s) ago", "N hour(s) ago" and "N day(s) ago" read as N, 60 N
      and 1440 N minutes. */
  lemma ParseRendered(n: nat, plural: bool)
    ensures ParseTimeToMinutes(Render(Numeral(n), Minute, plural, false)) == n
    ensures ParseTimeToMinutes(Render(Numeral(n), Hour, plural, false)) == 60 * n
    ensures ParseTimeToMinutes(Render(Numeral(n), Day, plural, false)) == 1440 * n
  {
    ParseRenderedUnit(n, Minute, plural);
    ParseRenderedUnit(n, Hour, plural);
    ParseRenderedUnit(n, Day, plural);
  }

  lemma ParseRenderedUnit(n: nat, u: Unit, plural: bool)
    ensures ParseTimeToMinutes(Render(Numeral(n), u, plural, false)) == ToMinutes(n, u)
  {
    var found := Match(Numeral(n), UnitWord(u));
    assert Search(Render(Numeral(n), u, plural, false), 0, false) == Some(found) by {
      RenderMatches(Numeral(n), u, plural, false, false);
    }
    assert DigitsValue(found.digits) == n by {
      NumeralValue(n);
    }
  }

  /** The placeholder and capitalised units read as 0 minutes. */
  lemma ParseUnreadable(n: nat, u: Unit, plural: bool)
    ensures ParseTimeToMinutes(NoTimestamp) == 0
    ensures ParseTimeToMinutes(Render(Numeral(n), u, plural, true)) == 0
  {
    NoDigitsNoMatch(NoTimestamp, false);
    RenderCapsNoMatch(Numeral(n), u, plural);
  }

  /** Article `i` looks more than the tolerance newer than article `i - 1`,
      when ages are read with `minutes`. */
  predicate Violates(articles: seq<Article>, minutes: string -> nat, i: nat)
    requires 1 <= i < |articles|
  {
    minutes(articles[i].timestamp) + TimeTolerance < minutes(articles[i - 1].timestamp)
  }

  /** The positions `i` (from 1) of the articles among the first `n` that look
      newer than their predecessor, in increasing order. */
  function Violations(articles: seq<Article>, minutes: string -> nat, n: nat): seq<nat>
    requires n <= |articles|
  {
    if n <= 1 then []
    else Violations(articles, minutes, n - 1) + (if Violates(articles, minutes, n - 1) then [n - 1] else [])
  }

  /** A position is listed exactly when its pair violates the order; the list
      is increasing and has fewer entries than there are articles. */
  lemma {:induction false} ViolationsExact(articles: seq<Article>, minutes: string -> nat, n: nat)
    requires n <= |articles|
    ensures forall i :: i in Violations(articles, minutes, n) <==> 1 <= i < n && Violates(articles, minutes, i)
    ensures forall x, y :: 0 <= x < y < |Violations(articles, minutes, n)| ==>
      Violations(articles, minutes, n)[x] < Violations(articles, minutes, n)[y]
    ensures forall x :: 0 <= x < |Violations(articles, minutes, n)| ==> Violations(articles, minutes, n)[x] < n
    ensures |Violations(articles, minutes, n)| <= if n == 0 then 0 else n - 1
  {
    if n > 1 {
      ViolationsExact(articles, minutes, n - 1);
    }
  }

  /** The loop of `validateSorting`, with the age reading as a parameter:
      the positions of the articles that look newer than their predecessor,
      and whether there are none. */
  method ValidateSortingWith(articles: seq<Article>, minutes: string -> nat)
    returns (isValid: bool, violations: seq<nat>)
    ensures violations == Violations(articles, minutes, |articles|)
    ensures isValid <==> violations == []
  {
    violations := [];
    isValid := true;
    var i := 1;
    while i < |articles|
      invariant 1 <= i <= if |articles| == 0 then 1 else |articles|
      invariant violations == Violations(articles, minutes, if |articles| == 0 then 0 else i)
      invariant isValid <==> violations == []
    {
      var currentMinutes := minutes(articles[i].timestamp);
      var previousMinutes := minutes(articles[i - 1].timestamp);
      if currentMinutes + TimeTolerance < previousMinutes {
        violations := violations + [i];
        isValid := false;
      }
      i := i + 1;
    }
  }

  /** `validateSorting`: ages are read by `parseTimeToMinutes`. */
  method ValidateSorting(articles: seq<Article>) returns (isValid: bool, violations: seq<nat>)
    ensures violations == Violations(articles, ParseTimeToMinutes, |articles|)
    ensures isValid <==> violations == []
  {
    isValid, violations := ValidateSortingWith(articles, ParseTimeToMinutes);
  }

  /** Between two listed ages, the younger-after-older test reads the
      rendered values: "n units ago" after "m units ago" is a violation
      exactly when the first is more than two minutes younger. */
  lemma RenderedViolation(articles: seq<Article>, i: nat, n: nat, u: Unit, p: bool, m: nat, v: Unit, q: bool)
    requires 1 <= i < |articles|
    requires articles[i].timestamp == Render(Numeral(n), u, p, false)
    requires articles[i - 1].timestamp == Render(Numeral(m), v, q, false)
    ensures Violates(articles, ParseTimeToMinutes, i) <==> ToMinutes(n, u) + TimeTolerance < ToMinutes(m, v)
  {
    ParseRenderedUnit(n, u, p);
    ParseRenderedUnit(m, v, q);
  }

  /** A row without an age reads as 0 minutes, so it counts as a violation
      after any article older than the tolerance, and never before one. */
  lemma PlaceholderViolation(articles: seq<Article>, i: nat)
    requires 1 <= i < |articles|
    requires articles[i].timestamp == NoTimestamp
    ensures Violates(articles, ParseTimeToMinutes, i) <==> ParseTimeToMinutes(articles[i - 1].timestamp) > TimeTolerance
    ensures articles[i - 1].timestamp == NoTimestamp ==> !Violates(articles, ParseTimeToMinutes, i)
  {
    ParseUnreadable(0, Minute, false);
  }

  /** What the loop stores for a row: the age text, or the placeholder when
      the row has no age element. */
  function TimeText(raw: Option<string>): string
  {
    if raw.None? then NoTimestamp else raw.value
  }

  function ArticleOf(j: nat, e: Entry<Option<string>>): Article
  {
    Article(j + 1, TimeText(e.raw), e.page)
  }

  /** The first `n` rows of a stream as articles numbered from 1. */
  function ArticlesOf(s: seq<Entry<Option<string>>>, n: nat): (a: seq<Article>)
    requires n <= |s|
    ensures |a| == n
  {
    Records(s, n, ArticleOf)
  }

  /** The articles the collector returns: the first `target` rows read from
      page 1 on, numbered from 1. */
  function Collected(batches: seq<seq<Option<string>>>, target: nat): seq<Article>
  {
    var s := Stream(batches, 1);
    ArticlesOf(s, Min(target, |s|))
  }

  /** The inner `for` loop of the collector: push one article per row of
      the page, numbered after those already held, and stop once the target
      is reached. `s` is the whole stream the rows are part of. */
  method ReadPage(articles: seq<Article>, items: seq<Option<string>>, page: nat, target: nat,
                  ghost s: seq<Entry<Option<string>>>)
    returns (result: seq<Article>)
    requires |articles| < target && |articles| + |items| <= |s|
    requires forall t :: 0 <= t < |items| ==> s[|articles| + t] == Entry(page, items[t])
    requires articles == ArticlesOf(s, |articles|)
    ensures |result| == Min(target, |articles| + |items|)
    ensures result == ArticlesOf(s, |result|)
  {
    result := articles;
    var i := 0;
    while i < |items|
      invariant 0 <= i <= |items|
      invariant |result| == |articles| + i < target
      invariant result == ArticlesOf(s, |result|)
    {
      assert s[|result|] == Entry(page, items[i]);
      RecordsNext(s, |result|, ArticleOf);
      result := result + [Article(|result| + 1, TimeText(items[i]), page)];
      i := i + 1;
      if |result| >= target {
        return;
      }
    }
  }

  /** The accumulation loop of `sortHackerNewsArticles`: read each page, push
      one article per row and stop at `target`, follow "more" while short, stop
      at a page without rows or without the link, and keep the first `target`. */
  method CollectArticles(batches: seq<seq<Option<string>>>, target: nat) returns (articles: seq<Article>)
    ensures articles == Collected(batches, target)
  {
    ghost var s := Stream(batches, 1);
    articles := [];
    var currentPage := 1;
    while |articles| < target
      invariant currentPage >= 1
      invariant |articles| <= target && |articles| <= |s|
      invariant |articles| < target ==> s[|articles|..] == Stream(batches, currentPage)
      invariant articles == ArticlesOf(s, |articles|)
      decreases target - |articles|
    {
      var articleElements := PageAt(batches, currentPage);
      if |articleElements| == 0 {
        break;
      }
      StreamSplit(s, |articles|, batches, currentPage);
      ghost var base := |articles|;
      articles := ReadPage(articles, articleElements, currentPage, target, s);
      if |articles| < target {
        StreamNext(s, base, batches, currentPage, |articles|);
        if HasMore(batches, currentPage) {
          currentPage := currentPage + 1;
        } else {
          break;
        }
      }
    }
    articles := articles[..Min(target, |articles|)];
    assert |articles| == Min(target, |s|);
  }

  /** Collected articles are numbered 1, 2, ... without gaps, never exceed
      the target, and come from pages 1, 2, ... in order. */
  lemma {:induction false} CollectedShape(batches: seq<seq<Option<string>>>, target: nat)
    ensures var a := Collected(batches, target);
      |a| <= target
      && (forall j :: 0 <= j < |a| ==> a[j].index == j + 1)
      && (a != [] ==> a[0].page == 1)
      && (forall j :: 0 < j < |a| ==> a[j - 1].page <= a[j].page <= a[j - 1].page + 1)
  {
    StreamPages(batches, 1);
  }

  /** The collection falls short of the target only when the rows ran out,
      and a page without rows ends it: nothing from that page or a later one
      is collected. */
  lemma {:induction false} CollectedStops(batches: seq<seq<Option<string>>>, target: nat, m: nat)
    ensures |Collected(batches, target)| < target ==> |Collected(batches, target)| == |Stream(batches, 1)|
    ensures 1 <= m && |PageAt(batches, m)| == 0 ==>
      forall j :: 0 <= j < |Collected(batches, target)| ==> Collected(batches, target)[j].page < m
  {
    if 1 <= m && |PageAt(batches, m)| == 0 {
      StreamStopsAtEmpty(batches, 1, m);
    }
  }
}
