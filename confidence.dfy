/** The second dashboard draft of the newest-first check
    (QA-Engineer-Practice/11132025/index.js): ages are read only at the start
    of the text and turned into instants before a collection time, neighbours
    may disagree by one minute, pairs of minute ages at most one minute apart
    are flagged as precision risks, and a confidence percentage leaves the
    flagged articles out. */
module ConfidenceDraft {
  import opened Text
  import opened RelativeTime
  import opened Paging

  /** `CONFIG.TARGET_ARTICLES`. */
  const TargetArticles: nat := 100

  /** The placeholder text `parseTimeToMinutes` refuses explicitly. */
  const NoTimestamp: string := "no timestamp found"

  /** `TOLERANCE_MS`: one minute. */
  const ToleranceMs: nat := 60000

  /** One collected listing: its 1-based position, the age text (`null` when
      extraction failed) and the page it came from. */
  datatype Article = Article(index: nat, timestamp: Option<string>, page: nat)

  /** JavaScript's truthiness of a text that may be `null`: present and not empty. */
  predicate Present(t: Option<string>) { t.Some? && t.value != [] }

  /** The age at the very start of the text, in minutes: the anchored
      pattern `^(\d+)\s+(minute|hour|day)s?\s+ago` and the unit conversion. */
  function AnchoredMinutes(s: string): (m: Option<nat>)
    ensures m.Some? <==> MatchAt(s, 0, false).Some?
  {
    match MatchAt(s, 0, false)
    case None => None
    case Some(found) =>
      UnitIsKnown(s, 0, false);
      match UnitNamed(found.unit)
      case None => None
      case Some(u) => Some(ToMinutes(DigitsValue(found.digits), u))
  }

  /** `parseTimeToMinutes(timeText, collectionTime)`: the instant, in
      milliseconds, an age at the start of the text stands for, counted back
      from the collection time; `null` for a missing or empty text, for the
      placeholder and for text that does not start with an age. */
  function ParseTimeToInstant(timeText: Option<string>, collectionTime: int): (t: Option<int>)
    ensures t.Some? <==> Present(timeText) && timeText.value != NoTimestamp && AnchoredMinutes(timeText.value).Some?
    ensures t.Some? ==> t.value == collectionTime - AnchoredMinutes(timeText.value).value * 60000
  {
    if !Present(timeText) || timeText.value == NoTimestamp then None
    else
      match AnchoredMinutes(timeText.value)
      case None => None
      case Some(minutes) => Some(collectionTime - minutes * 60 * 1000)
  }

  /** A rendered age reads as the instant that many minutes before the
      collection time. */
  lemma RenderedInstant(n: nat, u: Unit, plural: bool, collectionTime: int)
    ensures ParseTimeToInstant(Some(Render(Numeral(n), u, plural, false)), collectionTime)
      == Some(collectionTime - ToMinutes(n, u) * 60000)
  {
    RenderedMinutes(n, u, plural);
    RenderedNotPlaceholder(n, u, plural);
    InstantOfMinutes(Render(Numeral(n), u, plural, false), ToMinutes(n, u), collectionTime);
  }

  /** A rendered minute age reads as the instant that many minutes before
      the collection time. */
  lemma RenderedMinuteInstant(n: nat, collectionTime: int)
    ensures ParseTimeToInstant(Some(Render(Numeral(n), Minute, true, false)), collectionTime).Some?
    ensures ParseTimeToInstant(Some(Render(Numeral(n), Minute, true, false)), collectionTime).value
      == collectionTime - n * 60000
  {
    RenderedInstant(n, Minute, true, collectionTime);
  }

  /** A text that is not the placeholder and starts with an age of `m`
      minutes reads as the instant `m` minutes before the collection time. */
  lemma InstantOfMinutes(s: string, m: nat, collectionTime: int)
    requires s != [] && s != NoTimestamp && AnchoredMinutes(s) == Some(m)
    ensures ParseTimeToInstant(Some(s), collectionTime) == Some(collectionTime - m * 60000)
  {
  }

  /** The anchored pattern reads the age a listing renders. */
  lemma RenderedMinutes(n: nat, u: Unit, plural: bool)
    ensures AnchoredMinutes(Render(Numeral(n), u, plural, false)) == Some(ToMinutes(n, u))
  {
    RenderMatches(Numeral(n), u, plural, false, false);
    NumeralValue(n);
    assert UnitNamed(Shown(u, false)) == Some(u);
  }

  /** With its unit word in capitals a rendered age does not read. */
  lemma RenderedCapsUnreadable(n: nat, u: Unit, plural: bool, collectionTime: int)
    ensures ParseTimeToInstant(Some(Render(Numeral(n), u, plural, true)), collectionTime).None?
  {
    RenderCapsNoMatchAt(Numeral(n), u, plural, 0);
  }

  /** A rendered age starts with a digit, so it is neither empty nor the
      placeholder. */
  lemma RenderedNotPlaceholder(n: nat, u: Unit, plural: bool)
    ensures Render(Numeral(n), u, plural, false) != [] && Render(Numeral(n), u, plural, false) != NoTimestamp
  {
    var d := Numeral(n);
    var s := Render(d, u, plural, false);
    assert s[0] == d[0];
    assert IsDigit(s[0]) && !IsDigit(NoTimestamp[0]);
  }

  /** Reading ages into instants reverses their order: of two readable
      texts, the one with the smaller age is the later instant, and the
      other way round. */
  lemma InstantOrder(a: string, b: string, collectionTime: int)
    requires ParseTimeToInstant(Some(a), collectionTime).Some?
    requires ParseTimeToInstant(Some(b), collectionTime).Some?
    ensures AnchoredMinutes(a).value <= AnchoredMinutes(b).value
      <==> ParseTimeToInstant(Some(b), collectionTime).value <= ParseTimeToInstant(Some(a), collectionTime).value
    ensures ParseTimeToInstant(Some(a), collectionTime).value <= collectionTime
  {
  }

  /** The placeholder never reads, whatever the collection time. */
  lemma PlaceholderUnreadable(collectionTime: int)
    ensures ParseTimeToInstant(Some(NoTimestamp), collectionTime).None?
    ensures ParseTimeToInstant(None, collectionTime).None?
    ensures ParseTimeToInstant(Some(""), collectionTime).None?
  {
  }

  /** What `extractTimestampFromArticle` yields as `text` for a row whose age
      element holds `raw` (`None` when the row, its metadata row or the age
      element is missing): the age text when it starts with an age, else `null`. */
  function StoredText(raw: Option<string>): Option<string>
  {
    if raw.Some? && MatchAt(raw.value, 0, false).Some? then raw else None
  }

  /** A text the extraction keeps always reads as an instant, and a text it
      drops never does: the two checks use the same anchored pattern. */
  lemma StoredReads(raw: Option<string>, collectionTime: int)
    ensures ParseTimeToInstant(StoredText(raw), collectionTime).Some? <==> StoredText(raw).Some?
    ensures StoredText(raw).Some? <==> raw.Some? && ParseTimeToInstant(raw, collectionTime).Some?
  {
    if raw.Some? && MatchAt(raw.value, 0, false).Some? {
      var s := raw.value;
      assert s != [] && IsDigit(s[0]) by {
        RunIsMaximal(s, 0, Digit);
      }
      assert s != NoTimestamp by {
        assert NoTimestamp[0] == 'n';
      }
    }
  }

  /** `/^(\d+)\s+minute/` and `parseInt` of its capture: the number of
      minutes at the start of a minute age. */
  function MinuteCount(s: string): Option<nat>
  {
    var d := Run(s, 0, Digit);
    RunIsMaximal(s, 0, Digit);
    var w := Run(s, d, Space);
    if d > 0 && w > 0 && UnitWordAt(s, d + w, Minute, false) then Some(DigitsValue(s[..d])) else None
  }

  /** A rendered minute age yields its count; hours, days and capitals do not. */
  lemma RenderedMinuteCount(n: nat, u: Unit, plural: bool, caps: bool)
    ensures MinuteCount(Render(Numeral(n), u, plural, caps)) == if u == Minute && !caps then Some(n) else None
  {
    var d := Numeral(n);
    var s := Render(d, u, plural, caps);
    RenderedParts(n, u, plural, caps);
    MinuteCountOf(s, |d|);
    if u == Minute && !caps {
      RenderedDigits(n, u, plural, caps);
    }
  }

  /** A rendered age is its numeral, one blank, and a unit word that is
      `minute` exactly for a minute age without capitals. */
  lemma RenderedParts(n: nat, u: Unit, plural: bool, caps: bool)
    ensures var s := Render(Numeral(n), u, plural, caps);
      var d := |Numeral(n)|;
      d > 0 && Run(s, 0, Digit) == d && Run(s, d, Space) == 1
      && (UnitWordAt(s, d + 1, Minute, false) <==> u == Minute && !caps)
  {
    var d := Numeral(n);
    RenderDigits(d, u, plural, caps, 0);
    RenderBlank(d, u, plural, caps);
    RenderUnit(d, u, plural, caps, false);
  }

  /** The numeral cut back out of a rendered age reads as the number. */
  lemma RenderedDigits(n: nat, u: Unit, plural: bool, caps: bool)
    ensures |Numeral(n)| <= |Render(Numeral(n), u, plural, caps)|
    ensures DigitsValue(Render(Numeral(n), u, plural, caps)[..|Numeral(n)|]) == n
  {
    RenderSlices(Numeral(n), u, plural, caps);
    NumeralValue(n);
  }

  /** The minute pattern read off its parts: a digit run of length `d`, a
      single blank, and then `minute` or not. */
  lemma MinuteCountOf(s: string, d: nat)
    requires d > 0 && d <= |s| && Run(s, 0, Digit) == d && Run(s, d, Space) == 1
    ensures AllDigits(s[..d])
    ensures MinuteCount(s) == if UnitWordAt(s, d + 1, Minute, false) then Some(DigitsValue(s[..d])) else None
  {
    RunIsMaximal(s, 0, Digit);
  }

  /** Where both patterns read a text, they read the same number of minutes:
      an age whose number is followed by `minute` is a minute age. */
  lemma MinuteAgrees(s: string)
    requires MinuteCount(s).Some? && AnchoredMinutes(s).Some?
    ensures AnchoredMinutes(s).value == MinuteCount(s).value
  {
    var d := Run(s, 0, Digit);
    RunIsMaximal(s, 0, Digit);
    var value := DigitsValue(s[..d]);
    assert MinuteCount(s) == Some(value);
    var found := MatchAt(s, 0, false).value;
    assert found.digits == s[..d] && found.unit == TailAt(s, d, false).value by {
      MatchFromTail(s, 0, d, false);
    }
    assert UnitNamed(found.unit) == Some(Minute) by {
      MinuteTail(s, d);
    }
    assert AnchoredMinutes(s) == Some(ToMinutes(value, Minute));
  }

  /** After a digit run, blanks and `minute`, the tail pattern, where it
      matches, captures the word `minute`. */
  lemma MinuteTail(s: string, d: nat)
    requires d <= |s| && Run(s, d, Space) > 0 && UnitWordAt(s, d + Run(s, d, Space), Minute, false)
    requires TailAt(s, d, false).Some?
    ensures UnitNamed(TailAt(s, d, false).value) == Some(Minute)
  {
    var r := d + Run(s, d, Space);
    assert UnitAt(s, r, false) == Some(Minute);
    WordNamesUnit(s, r, Minute, false);
  }

  /** The distance between two minute counts, `Math.abs(prevMin - currMin)`. */
  function Dist(a: nat, b: nat): nat { if a >= b then a - b else b - a }

  /** A pair `analyzeTimestampPrecision` flags: the 1-based indices of the
      older and the newer listing and the distance in minutes. */
  datatype RiskPair = RiskPair(article1: nat, article2: nat, delta: nat)

  /** Article `i` and its predecessor both have a text, both start with a
      minute count, and the counts are at most one minute apart. */
  predicate Risky(articles: seq<Article>, i: nat)
    requires 1 <= i < |articles|
  {
    var cur := articles[i].timestamp;
    var prev := articles[i - 1].timestamp;
    Present(cur) && Present(prev)
    && MinuteCount(cur.value).Some? && MinuteCount(prev.value).Some?
    && Dist(MinuteCount(prev.value).value, MinuteCount(cur.value).value) <= 1
  }

  /** The pairs flagged among the first `n` articles, in order. */
  function Risks(articles: seq<Article>, n: nat): seq<RiskPair>
    requires n <= |articles|
  {
    if n <= 1 then []
    else
      Risks(articles, n - 1)
      + if Risky(articles, n - 1) then [PairAt(articles, n - 1)] else []
  }

  /** The indices of the articles in a flagged pair among the first `n`. */
  function RiskSet(articles: seq<Article>, n: nat): set<nat>
    requires n <= |articles|
  {
    if n <= 1 then {}
    else RiskSet(articles, n - 1) + if Risky(articles, n - 1) then {articles[n - 2].index, articles[n - 1].index} else {}
  }

  /** The pair a risky neighbour pair is flagged as. */
  function PairAt(articles: seq<Article>, i: nat): RiskPair
    requires 1 <= i < |articles| && Risky(articles, i)
  {
    RiskPair(articles[i - 1].index, articles[i].index,
             Dist(MinuteCount(articles[i - 1].timestamp.value).value, MinuteCount(articles[i].timestamp.value).value))
  }

  /** At most one pair is flagged per neighbour pair, and every flagged pair
      is at most one minute apart. */
  lemma {:induction false} RisksBound(articles: seq<Article>, n: nat)
    requires n <= |articles|
    ensures |Risks(articles, n)| <= if n == 0 then 0 else n - 1
    ensures forall x :: 0 <= x < |Risks(articles, n)| ==> Risks(articles, n)[x].delta <= 1
  {
    if n > 1 {
      RisksBound(articles, n - 1);
    }
  }

  /** Every risky neighbour pair is flagged. */
  lemma {:induction false} RisksFlagged(articles: seq<Article>, n: nat)
    requires n <= |articles|
    ensures forall i :: 1 <= i < n && Risky(articles, i) ==> PairAt(articles, i) in Risks(articles, n)
  {
    if n > 1 {
      RisksFlagged(articles, n - 1);
      assert Risks(articles, n - 1) <= Risks(articles, n);
    }
  }

  /** Both articles of every risky neighbour pair are at risk. */
  lemma {:induction false} RiskSetComplete(articles: seq<Article>, n: nat, i: nat)
    requires n <= |articles| && 1 <= i < n && Risky(articles, i)
    ensures articles[i - 1].index in RiskSet(articles, n) && articles[i].index in RiskSet(articles, n)
  {
    if i < n - 1 {
      RiskSetComplete(articles, n - 1, i);
    }
  }

  /** An index is at risk only when it belongs to a risky neighbour pair. */
  lemma {:induction false} RiskSetSound(articles: seq<Article>, n: nat, k: nat)
    requires n <= |articles| && k in RiskSet(articles, n)
    ensures exists i :: 1 <= i < n && Risky(articles, i) && (k == articles[i - 1].index || k == articles[i].index)
  {
    if k in RiskSet(articles, n - 1) {
      RiskSetSound(articles, n - 1, k);
    } else {
      assert Risky(articles, n - 1) && (k == articles[n - 2].index || k == articles[n - 1].index);
    }
  }

  /** `analyzeTimestampPrecision`: the flagged pairs and the set of the
      indices they involve. */
  method AnalyzeTimestampPrecision(articles: seq<Article>) returns (precisionRisks: seq<RiskPair>, riskIndices: set<nat>)
    ensures precisionRisks == Risks(articles, |articles|)
    ensures riskIndices == RiskSet(articles, |articles|)
  {
    precisionRisks := [];
    riskIndices := {};
    var i := 1;
    while i < |articles|
      invariant 1 <= i <= if |articles| == 0 then 1 else |articles|
      invariant precisionRisks == Risks(articles, if |articles| == 0 then 0 else i)
      invariant riskIndices == RiskSet(articles, if |articles| == 0 then 0 else i)
    {
      var current := articles[i];
      var previous := articles[i - 1];
      if Present(current.timestamp) && Present(previous.timestamp) {
        var currMatch := MinuteCount(current.timestamp.value);
        var prevMatch := MinuteCount(previous.timestamp.value);
        if currMatch.Some? && prevMatch.Some? {
          var delta := Dist(prevMatch.value, currMatch.value);
          if delta <= 1 {
            precisionRisks := precisionRisks + [RiskPair(previous.index, current.index, delta)];
            riskIndices := riskIndices + {current.index, previous.index};
          }
        }
      }
      i := i + 1;
    }
  }

  /** One entry of `absoluteTimestamps`: the instant (`null` when the age
      did not read) and whether the article's index is at risk. */
  datatype Stamp = Stamp(absTime: Option<int>, isRisk: bool)

  /** `parseTimeToMinutes` with the collection time fixed. */
  function InstantReader(collectionTime: int): Option<string> -> Option<int>
  {
    t => ParseTimeToInstant(t, collectionTime)
  }

  /** The `map` callback of `validateSortingWithConfidence`, with the age
      reading as a parameter; a failed reading is never marked at risk. */
  function StampOf(a: Article, read: Option<string> -> Option<int>, riskIndices: set<nat>): Stamp
  {
    match read(a.timestamp)
    case None => Stamp(None, false)
    case Some(t) => Stamp(Some(t), a.index in riskIndices)
  }

  function Stamps(articles: seq<Article>, read: Option<string> -> Option<int>, riskIndices: set<nat>): (r: seq<Stamp>)
    ensures |r| == |articles|
    ensures forall j :: 0 <= j < |articles| ==> r[j] == StampOf(articles[j], read, riskIndices)
  {
    seq(|articles|, j requires 0 <= j < |articles| => StampOf(articles[j], read, riskIndices))
  }

  /** How many of the first `n` stamps hold an instant. */
  function ValidCount(stamps: seq<Stamp>, n: nat): (c: nat)
    requires n <= |stamps|
    ensures c <= n
  {
    if n == 0 then 0 else ValidCount(stamps, n - 1) + if stamps[n - 1].absTime.Some? then 1 else 0
  }

  /** `map` over the articles, with the age reading as a parameter, counting successes in `validTimestamps` and
      failures in `failedExtractions` as it goes. */
  method ToAbsolute(articles: seq<Article>, read: Option<string> -> Option<int>, riskIndices: set<nat>)
    returns (stamps: seq<Stamp>, validTimestamps: nat, failedExtractions: nat)
    ensures stamps == Stamps(articles, read, riskIndices)
    ensures validTimestamps == ValidCount(stamps, |stamps|)
    ensures validTimestamps + failedExtractions == |articles|
  {
    stamps := [];
    validTimestamps, failedExtractions := 0, 0;
    var idx := 0;
    while idx < |articles|
      invariant idx <= |articles|
      invariant |stamps| == idx
      invariant forall j :: 0 <= j < idx ==> stamps[j] == StampOf(articles[j], read, riskIndices)
      invariant validTimestamps == ValidCount(stamps, idx)
      invariant validTimestamps + failedExtractions == idx
    {
      var article := articles[idx];
      var absTime := read(article.timestamp);
      var stamp;
      if absTime.None? {
        failedExtractions := failedExtractions + 1;
        stamp := Stamp(None, false);
      } else {
        validTimestamps := validTimestamps + 1;
        stamp := Stamp(absTime, article.index in riskIndices);
      }
      assert stamp == StampOf(article, read, riskIndices);
      assert ValidCount(stamps + [stamp], idx + 1) == ValidCount(stamps, idx) + if stamp.absTime.Some? then 1 else 0 by {
        assert (stamps + [stamp])[..idx] == stamps;
        ValidCountPrefix(stamps + [stamp], stamps, idx);
      }
      stamps := stamps + [stamp];
      idx := idx + 1;
    }
  }

  /** The count over a prefix only looks at the prefix. */
  lemma {:induction false} ValidCountPrefix(s: seq<Stamp>, t: seq<Stamp>, n: nat)
    requires n <= |s| && n <= |t| && s[..n] == t[..n]
    ensures ValidCount(s, n) == ValidCount(t, n)
  {
    if n > 0 {
      assert s[..n - 1] == t[..n - 1] && s[n - 1] == s[..n][n - 1];
      ValidCountPrefix(s, t, n - 1);
    }
  }

  /** One recorded violation: the 0-based position of the newer-looking
      article and whether either side was at risk (`precisionFlag`). */
  datatype Violation = Violation(position: nat, precisionRisk: bool)

  /** Stamp `i` holds a later instant than stamp `i - 1` by more than the
      tolerance, both having read. */
  predicate OutOfOrder(stamps: seq<Stamp>, i: nat)
    requires 1 <= i < |stamps|
  {
    stamps[i].absTime.Some? && stamps[i - 1].absTime.Some?
    && stamps[i].absTime.value > stamps[i - 1].absTime.value + ToleranceMs
  }

  /** The violations among the first `n` stamps, in order. */
  function Violations(stamps: seq<Stamp>, n: nat): seq<Violation>
    requires n <= |stamps|
  {
    if n <= 1 then []
    else
      Violations(stamps, n - 1)
      + if OutOfOrder(stamps, n - 1) then [Violation(n - 1, stamps[n - 1].isRisk || stamps[n - 2].isRisk)] else []
  }

  /** Every recorded violation is an out-of-order neighbour pair, at
      increasing positions, flagged when either side is at risk. */
  lemma {:induction false} ViolationsSound(stamps: seq<Stamp>, n: nat)
    requires n <= |stamps|
    ensures forall x :: 0 <= x < |Violations(stamps, n)| ==>
      1 <= Violations(stamps, n)[x].position < n && OutOfOrder(stamps, Violations(stamps, n)[x].position)
      && Violations(stamps, n)[x].precisionRisk
         == (stamps[Violations(stamps, n)[x].position].isRisk || stamps[Violations(stamps, n)[x].position - 1].isRisk)
    ensures forall x, y :: 0 <= x < y < |Violations(stamps, n)| ==>
      Violations(stamps, n)[x].position < Violations(stamps, n)[y].position
  {
    if n > 1 {
      ViolationsSound(stamps, n - 1);
    }
  }

  /** Every out-of-order neighbour pair is recorded; so a pair with a failed
      reading on either side never is, and neither is one within the tolerance. */
  lemma {:induction false} ViolationsComplete(stamps: seq<Stamp>, n: nat)
    requires n <= |stamps|
    ensures forall i :: 1 <= i < n && OutOfOrder(stamps, i) ==>
      Violation(i, stamps[i].isRisk || stamps[i - 1].isRisk) in Violations(stamps, n)
  {
    if n > 1 {
      ViolationsComplete(stamps, n - 1);
      forall i | 1 <= i < n && OutOfOrder(stamps, i)
        ensures Violation(i, stamps[i].isRisk || stamps[i - 1].isRisk) in Violations(stamps, n)
      {
        if i < n - 1 {
          assert Violation(i, stamps[i].isRisk || stamps[i - 1].isRisk) in Violations(stamps, n - 1);
        }
      }
    }
  }

  /** For two articles whose ages read, the newer one after the older is a
      violation exactly when its age is smaller by more than one minute. */
  lemma ViolationInMinutes(articles: seq<Article>, collectionTime: int, riskIndices: set<nat>, i: nat)
    requires 1 <= i < |articles|
    requires ParseTimeToInstant(articles[i].timestamp, collectionTime).Some?
    requires ParseTimeToInstant(articles[i - 1].timestamp, collectionTime).Some?
    ensures OutOfOrder(Stamps(articles, InstantReader(collectionTime), riskIndices), i)
      <==> AnchoredMinutes(articles[i].timestamp.value).value + 1 < AnchoredMinutes(articles[i - 1].timestamp.value).value
  {
  }

  /** A pair flagged as a precision risk is never itself a violation: its
      ages are at most one minute apart, within the tolerance. */
  lemma RiskyNeverViolates(articles: seq<Article>, collectionTime: int, riskIndices: set<nat>, i: nat)
    requires 1 <= i < |articles| && Risky(articles, i)
    ensures !OutOfOrder(Stamps(articles, InstantReader(collectionTime), riskIndices), i)
  {
    var cur := articles[i].timestamp;
    var prev := articles[i - 1].timestamp;
    if ParseTimeToInstant(cur, collectionTime).Some? && ParseTimeToInstant(prev, collectionTime).Some? {
      MinuteAgrees(cur.value);
      MinuteAgrees(prev.value);
      ViolationInMinutes(articles, collectionTime, riskIndices, i);
    }
  }

  /** A percentage as an exact fraction `num / den`; the draft prints it
      rounded to one decimal. */
  datatype Percent = Percent(num: int, den: nat)

  /** The confidence score as `validateSortingWithConfidence` computes it:
      0 without scoring articles, otherwise the share of scoring articles
      that are not out of order, which goes below 0 when more pairs are out
      of order than there are scoring articles. */
  function ConfidenceAsWritten(scoring: int, outOfOrder: nat): (c: Percent)
    ensures c.den > 0
    ensures scoring > 0 && outOfOrder <= scoring ==> 0 <= c.num <= 100 * c.den
    ensures scoring > 0 && outOfOrder > scoring ==> c.num < 0
  {
    if scoring <= 0 then Percent(0, 1) else Percent(100 * (scoring - outOfOrder), scoring)
  }

  /** The confidence score kept between 0 and 100: out-of-order pairs beyond
      the number of scoring articles count no further. */
  function Confidence(scoring: int, outOfOrder: nat): (c: Percent)
    ensures c.den > 0 && 0 <= c.num <= 100 * c.den
    ensures scoring > 0 && outOfOrder <= scoring ==> c == ConfidenceAsWritten(scoring, outOfOrder)
    ensures scoring > 0 && outOfOrder == 0 ==> c.num == 100 * c.den
  {
    if scoring <= 0 then Percent(0, 1) else Percent(100 * (scoring - Min(outOfOrder, scoring)), scoring)
  }

  /** The counters of a validation run. */
  datatype Metrics = Metrics(totalArticles: nat, validTimestamps: nat, failedExtractions: nat,
                             outOfOrder: nat, highRiskArticles: nat)

  /** What `validateSortingWithConfidence` returns. */
  datatype Report = Report(isValid: bool, confidence: Percent, violations: seq<Violation>,
                           metrics: Metrics, precisionRisks: seq<RiskPair>)

  /** The ordering loop: the violations among the stamps. */
  method CheckOrder(stamps: seq<Stamp>) returns (violations: seq<Violation>)
    ensures violations == Violations(stamps, |stamps|)
  {
    violations := [];
    var i := 1;
    while i < |stamps|
      invariant 1 <= i <= if |stamps| == 0 then 1 else |stamps|
      invariant violations == Violations(stamps, if |stamps| == 0 then 0 else i)
    {
      var current := stamps[i];
      var previous := stamps[i - 1];
      if current.absTime.Some? && previous.absTime.Some? {
        if current.absTime.value > previous.absTime.value + ToleranceMs {
          violations := violations + [Violation(i, current.isRisk || previous.isRisk)];
        }
      }
      i := i + 1;
    }
  }

  /** `validateSortingWithConfidence(allArticles, collectionTime)`. */
  method ValidateSortingWithConfidence(articles: seq<Article>, collectionTime: int) returns (r: Report)
    ensures r.precisionRisks == Risks(articles, |articles|)
    ensures r.metrics.highRiskArticles == |RiskSet(articles, |articles|)|
    ensures var stamps := Stamps(articles, InstantReader(collectionTime), RiskSet(articles, |articles|));
      r.violations == Violations(stamps, |stamps|)
      && r.metrics.validTimestamps == ValidCount(stamps, |stamps|)
    ensures r.metrics.totalArticles == |articles|
    ensures r.metrics.validTimestamps + r.metrics.failedExtractions == |articles|
    ensures r.metrics.outOfOrder == |r.violations|
    ensures r.isValid <==> r.violations == []
    ensures var scoring := r.metrics.validTimestamps - r.metrics.highRiskArticles;
      r.confidence == ConfidenceAsWritten(scoring, r.metrics.outOfOrder)
      && (r.metrics.outOfOrder <= scoring ==> r.confidence == Confidence(scoring, r.metrics.outOfOrder))
  {
    var precisionRisks, riskIndices := AnalyzeTimestampPrecision(articles);
    var stamps, validTimestamps, failedExtractions := ToAbsolute(articles, InstantReader(collectionTime), riskIndices);
    var violations := CheckOrder(stamps);
    var metrics := Metrics(|articles|, validTimestamps, failedExtractions, |violations|, |riskIndices|);
    var scoringArticles := validTimestamps - |riskIndices|;
    r := Report(violations == [], ConfidenceAsWritten(scoringArticles, |violations|), violations, metrics, precisionRisks);
  }

  /** A listing of minute ages, all on page 1, numbered from 1: "9 minutes
      ago", "5 minutes ago", ... for `ages` 9, 5, ... */
  function MinuteListing(ages: seq<nat>): (a: seq<Article>)
    ensures |a| == |ages|
  {
    seq(|ages|, j requires 0 <= j < |ages| => Article(j + 1, Some(Render(Numeral(ages[j]), Minute, true, false)), 1))
  }

  /** Article `j` of a listing of minute ages has a text that starts with
      its minute count and reads as the instant that many minutes before the
      collection time. */
  lemma MinuteListingReads(ages: seq<nat>, collectionTime: int, j: nat)
    requires j < |ages|
    ensures var t := MinuteListing(ages)[j].timestamp;
      MinuteListing(ages)[j].index == j + 1
      && Present(t) && MinuteCount(t.value) == Some(ages[j])
      && ParseTimeToInstant(t, collectionTime).Some?
      && ParseTimeToInstant(t, collectionTime).value == collectionTime - ages[j] * 60000
  {
    var text := Render(Numeral(ages[j]), Minute, true, false);
    assert MinuteListing(ages)[j] == Article(j + 1, Some(text), 1);
    RenderedNotPlaceholder(ages[j], Minute, true);
    RenderedMinuteCount(ages[j], Minute, true, false);
    RenderedMinuteInstant(ages[j], collectionTime);
  }

  /** The articles are numbered from 1 and the text of article `j` starts
      with the minute count `ages[j]`. */
  predicate CountsAs(a: seq<Article>, ages: seq<nat>)
  {
    |a| == |ages|
    && forall j :: 0 <= j < |a| ==>
      a[j].index == j + 1 && Present(a[j].timestamp) && MinuteCount(a[j].timestamp.value) == Some(ages[j])
  }

  /** The text of article `j` reads as the instant `ages[j]` minutes before
      the collection time. */
  predicate InstantsAs(a: seq<Article>, ages: seq<nat>, collectionTime: int)
  {
    |a| == |ages|
    && forall j :: 0 <= j < |a| ==>
      ParseTimeToInstant(a[j].timestamp, collectionTime).Some?
      && ParseTimeToInstant(a[j].timestamp, collectionTime).value == collectionTime - ages[j] * 60000
  }

  /** A listing of minute ages starts with its counts and reads as its ages. */
  lemma MinuteListingReadsAs(ages: seq<nat>, collectionTime: int)
    ensures CountsAs(MinuteListing(ages), ages)
    ensures InstantsAs(MinuteListing(ages), ages, collectionTime)
  {
    forall j | 0 <= j < |ages|
      ensures var t := MinuteListing(ages)[j].timestamp;
        MinuteListing(ages)[j].index == j + 1
        && Present(t) && MinuteCount(t.value) == Some(ages[j])
        && ParseTimeToInstant(t, collectionTime).Some?
        && ParseTimeToInstant(t, collectionTime).value == collectionTime - ages[j] * 60000
    {
      MinuteListingReads(ages, collectionTime, j);
    }
  }

  /** Whether a neighbour pair is a precision risk depends only on the two
      minute counts. */
  lemma RiskyByCounts(a: seq<Article>, i: nat, prev: nat, cur: nat)
    requires 1 <= i < |a| && Present(a[i].timestamp) && Present(a[i - 1].timestamp)
    requires MinuteCount(a[i - 1].timestamp.value) == Some(prev) && MinuteCount(a[i].timestamp.value) == Some(cur)
    ensures Risky(a, i) <==> Dist(prev, cur) <= 1
  {
  }

  /** Over the ages `hi`, `mid`, `mid`, `lo`, `lo` minutes the two pairs of
      equal ages are flagged, so four articles are at risk. */
  lemma ExampleRisks(a: seq<Article>, hi: nat, mid: nat, lo: nat)
    requires mid + 1 < hi && lo + 1 < mid
    requires CountsAs(a, [hi, mid, mid, lo, lo])
    ensures |RiskSet(a, 5)| == 4
  {
    var ages := [hi, mid, mid, lo, lo];
    RiskyByCounts(a, 1, ages[0], ages[1]);
    RiskyByCounts(a, 2, ages[1], ages[2]);
    RiskyByCounts(a, 3, ages[2], ages[3]);
    RiskyByCounts(a, 4, ages[3], ages[4]);
    var r := RiskSet(a, 5);
    forall k | k in r ensures k in {2, 3, 4, 5} {
      RiskSetSound(a, 5, k);
    }
    RiskSetComplete(a, 5, 2);
    RiskSetComplete(a, 5, 4);
    assert r == {2, 3, 4, 5};
  }

  /** The stamp of an article that reads is its instant. */
  lemma StampReads(a: seq<Article>, collectionTime: int, riskIndices: set<nat>, j: nat)
    requires j < |a| && ParseTimeToInstant(a[j].timestamp, collectionTime).Some?
    ensures Stamps(a, InstantReader(collectionTime), riskIndices)[j].absTime
      == ParseTimeToInstant(a[j].timestamp, collectionTime)
  {
  }

  /** Instants `hi`, `mid`, `mid`, `lo`, `lo` minutes before the collection
      time: all five read and two neighbours are out of order (`mid` after
      `hi`, `lo` after `mid`). */
  lemma ExampleOrder(stamps: seq<Stamp>, collectionTime: int, hi: nat, mid: nat, lo: nat)
    requires mid + 1 < hi && lo + 1 < mid
    requires |stamps| == 5
    requires forall j :: 0 <= j < 5 ==>
      stamps[j].absTime.Some? && stamps[j].absTime.value == collectionTime - [hi, mid, mid, lo, lo][j] * 60000
    ensures ValidCount(stamps, 5) == 5
    ensures |Violations(stamps, 5)| == 2
  {
    assert stamps[0].absTime.value == collectionTime - hi * 60000;
    assert stamps[1].absTime.value == collectionTime - mid * 60000;
    assert stamps[2].absTime.value == collectionTime - mid * 60000;
    assert stamps[3].absTime.value == collectionTime - lo * 60000;
    assert stamps[4].absTime.value == collectionTime - lo * 60000;
    assert ValidCount(stamps, 2) == 2;
    assert ValidCount(stamps, 4) == 4;
    assert OutOfOrder(stamps, 1) && !OutOfOrder(stamps, 2) && OutOfOrder(stamps, 3) && !OutOfOrder(stamps, 4);
    assert |Violations(stamps, 2)| == 1;
    assert |Violations(stamps, 3)| == 1;
    assert |Violations(stamps, 4)| == 2;
  }

  /** Over articles that read as the ages `hi`, `mid`, `mid`, `lo`, `lo`
      minutes, all five stamps read and two pairs are out of order. */
  lemma ExampleStamps(a: seq<Article>, collectionTime: int, riskIndices: set<nat>, hi: nat, mid: nat, lo: nat)
    requires mid + 1 < hi && lo + 1 < mid
    requires InstantsAs(a, [hi, mid, mid, lo, lo], collectionTime)
    ensures var stamps := Stamps(a, InstantReader(collectionTime), riskIndices);
      ValidCount(stamps, 5) == 5 && |Violations(stamps, 5)| == 2
  {
    var stamps := Stamps(a, InstantReader(collectionTime), riskIndices);
    forall j | 0 <= j < 5
      ensures stamps[j].absTime.Some? && stamps[j].absTime.value == collectionTime - [hi, mid, mid, lo, lo][j] * 60000
    {
      StampReads(a, collectionTime, riskIndices, j);
    }
    ExampleOrder(stamps, collectionTime, hi, mid, lo);
  }

  /** The confidence score as written goes below zero: over the ages `hi`,
      `mid`, `mid`, `lo`, `lo` minutes (9, 5, 5, 1, 1, say) one article is left
      to score and two pairs are out of order, so the score is -100 percent.
      Kept between 0 and 100 it is 0. */
  lemma NegativeConfidence(collectionTime: int, hi: nat, mid: nat, lo: nat)
    requires mid + 1 < hi && lo + 1 < mid
    ensures var a := MinuteListing([hi, mid, mid, lo, lo]);
      var stamps := Stamps(a, InstantReader(collectionTime), RiskSet(a, 5));
      var scoring := ValidCount(stamps, 5) - |RiskSet(a, 5)|;
      ConfidenceAsWritten(scoring, |Violations(stamps, 5)|) == Percent(-100, 1)
      && Confidence(scoring, |Violations(stamps, 5)|) == Percent(0, 1)
  {
    var a := MinuteListing([hi, mid, mid, lo, lo]);
    MinuteListingReadsAs([hi, mid, mid, lo, lo], collectionTime);
    ExampleRisks(a, hi, mid, lo);
    ExampleStamps(a, collectionTime, RiskSet(a, 5), hi, mid, lo);
  }

  /** What the row extraction stores for a listing row. */
  function ArticleOf(j: nat, e: Entry<Option<string>>): Article
  {
    Article(j + 1, StoredText(e.raw), e.page)
  }

  /** The first `n` rows of a stream as articles numbered from 1. */
  function ArticlesOf(s: seq<Entry<Option<string>>>, n: nat): (a: seq<Article>)
    requires n <= |s|
    ensures |a| == n
  {
    Records(s, n, ArticleOf)
  }

  /** The articles the collector returns: the first `target` rows read from
      page 1 on, numbered from 1. */
  function Collected(batches: seq<seq<Option<string>>>, target: nat): seq<Article>
  {
    var s := Stream(batches, 1);
    ArticlesOf(s, Min(target, |s|))
  }

  /** The inner `for` loop of the collector: stop before pushing once the
      target is reached, otherwise push the row's article numbered after those
      already held. `s` is the whole stream the rows are part of. */
  method ReadPage(articles: seq<Article>, items: seq<Option<string>>, page: nat, target: nat,
                  ghost s: seq<Entry<Option<string>>>)
    returns (result: seq<Article>)
    requires |articles| < target && |articles| + |items| <= |s|
    requires forall t :: 0 <= t < |items| ==> s[|articles| + t] == Entry(page, items[t])
    requires articles == ArticlesOf(s, |articles|)
    ensures |result| == Min(target, |articles| + |items|)
    ensures result == ArticlesOf(s, |result|)
  {
    result := articles;
    var i := 0;
    while i < |items|
      invariant 0 <= i <= |items|
      invariant |result| == |articles| + i <= target
      invariant result == ArticlesOf(s, |result|)
    {
      if |result| >= target {
        break;
      }
      assert s[|result|] == Entry(page, items[i]);
      RecordsNext(s, |result|, ArticleOf);
      result := result + [Article(|result| + 1, StoredText(items[i]), page)];
      i := i + 1;
    }
  }

  /** The accumulation loop of `validateHackerNewsSorting`: read each page,
      push one article per row up to `target`, follow "More" while short,
      stop at a page without rows or without the link. */
  method CollectArticles(batches: seq<seq<Option<string>>>, target: nat) returns (articles: seq<Article>)
    ensures articles == Collected(batches, target)
  {
    ghost var s := Stream(batches, 1);
    articles := [];
    var currentPage := 1;
    while |articles| < target
      invariant currentPage >= 1
      invariant |articles| <= target && |articles| <= |s|
      invariant |articles| < target ==> s[|articles|..] == Stream(batches, currentPage)
      invariant articles == ArticlesOf(s, |articles|)
      decreases target - |articles|
    {
      var articleElements := PageAt(batches, currentPage);
      if |articleElements| == 0 {
        break;
      }
      StreamSplit(s, |articles|, batches, currentPage);
      ghost var base := |articles|;
      articles := ReadPage(articles, articleElements, currentPage, target, s);
      if |articles| < target {
        StreamNext(s, base, batches, currentPage, |articles|);
        if HasMore(batches, currentPage) {
          currentPage := currentPage + 1;
        } else {
          break;
        }
      }
    }
    assert |articles| == Min(target, |s|);
  }

  /** The collector checks the target before each push: it never holds more
      than `target` articles, they are numbered 1, 2, ... without gaps, and
      they come from pages 1, 2, ... in order. */
  lemma {:induction false} CollectedShape(batches: seq<seq<Option<string>>>, target: nat)
    ensures var a := Collected(batches, target);
      |a| <= target
      && (forall j :: 0 <= j < |a| ==> a[j].index == j + 1)
      && (a != [] ==> a[0].page == 1)
      && (forall j :: 0 < j < |a| ==> a[j - 1].page <= a[j].page <= a[j - 1].page + 1)
  {
    StreamPages(batches, 1);
  }

  /** Every collected text reads as an instant, so the failed readings of a
      validation run are exactly the articles stored with `null`. */
  lemma CollectedReadable(batches: seq<seq<Option<string>>>, target: nat, collectionTime: int, j: nat)
    requires j < |Collected(batches, target)|
    ensures ParseTimeToInstant(Collected(batches, target)[j].timestamp, collectionTime).Some?
      <==> Collected(batches, target)[j].timestamp.Some?
  {
    StoredReads(Stream(batches, 1)[j].raw, collectionTime);
  }
}
