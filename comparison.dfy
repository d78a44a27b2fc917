/** Where the three dashboard drafts of the newest-first check agree and
    where they part: the same pair of well-formed ages against their two
    tolerances, capitalised unit words, and the placeholder a row without an
    age element gets. */
module DraftComparison {
  import opened Text
  import opened RelativeTime
  import TakeHome = TakeHomeDraft
  import Nullable = NullableDraft
  import Confidence = ConfidenceDraft

  /** On ages as the site writes them, the first and the third draft flag
      the same pairs: both allow two minutes of disagreement. */
  lemma MinuteDraftsAgree(a: seq<TakeHome.Article>, b: seq<Nullable.Article>, i: nat,
                          n: nat, u: Unit, p: bool, m: nat, v: Unit, q: bool)
    requires 1 <= i < |a| && 1 <= i < |b|
    requires a[i].timestamp == Render(Numeral(n), u, p, false) && b[i].timestamp == Some(a[i].timestamp)
    requires a[i - 1].timestamp == Render(Numeral(m), v, q, false) && b[i - 1].timestamp == Some(a[i - 1].timestamp)
    ensures TakeHome.Violates(a, TakeHome.ParseTimeToMinutes, i)
      <==> Nullable.PairViolation(b, Nullable.ParseTimeToMinutes, i).Some?
  {
    TakeHome.RenderedViolation(a, i, n, u, p, m, v, q);
    Nullable.RenderedPair(b, i, n, u, p, false, m, v, q, false);
  }

  /** The second draft's one-minute tolerance is stricter: every pair the
      first draft flags it flags too, and a newer article exactly two
      minutes younger than the one before is flagged by it alone. */
  lemma ToleranceDiffers(a: seq<TakeHome.Article>, c: seq<Confidence.Article>, collectionTime: int,
                         riskIndices: set<nat>, i: nat, n: nat, u: Unit, p: bool, m: nat, v: Unit, q: bool)
    requires 1 <= i < |a| && 1 <= i < |c|
    requires a[i].timestamp == Render(Numeral(n), u, p, false) && c[i].timestamp == Some(a[i].timestamp)
    requires a[i - 1].timestamp == Render(Numeral(m), v, q, false) && c[i - 1].timestamp == Some(a[i - 1].timestamp)
    ensures var flagged := Confidence.OutOfOrder(Confidence.Stamps(c, Confidence.InstantReader(collectionTime), riskIndices), i);
      (TakeHome.Violates(a, TakeHome.ParseTimeToMinutes, i) ==> flagged)
      && (ToMinutes(m, v) == ToMinutes(n, u) + 2 ==> flagged && !TakeHome.Violates(a, TakeHome.ParseTimeToMinutes, i))
  {
    TakeHome.RenderedViolation(a, i, n, u, p, m, v, q);
    Confidence.RenderedInstant(n, u, p, collectionTime);
    Confidence.RenderedInstant(m, v, q, collectionTime);
    Confidence.RenderedMinutes(n, u, p);
    Confidence.RenderedMinutes(m, v, q);
    Confidence.ViolationInMinutes(c, collectionTime, riskIndices, i);
  }

  /** A capitalised unit word ("5 Minutes ago") reads as an age only in the
      case-insensitive third draft: the first reads it as 0 minutes and the
      second as no instant at all. */
  lemma CapitalisedAges(n: nat, u: Unit, plural: bool, collectionTime: int)
    ensures TakeHome.ParseTimeToMinutes(Render(Numeral(n), u, plural, true)) == 0
    ensures Confidence.ParseTimeToInstant(Some(Render(Numeral(n), u, plural, true)), collectionTime).None?
    ensures Nullable.ParseTimeToMinutes(Some(Render(Numeral(n), u, plural, true))) == Some(ToMinutes(n, u))
  {
    TakeHome.ParseUnreadable(n, u, plural);
    Confidence.RenderedCapsUnreadable(n, u, plural, collectionTime);
    Nullable.ParseRenderedUnit(n, u, plural, true);
  }

  /** A row without an age: the first draft stores the placeholder, which
      reads as 0 minutes, so next to an age of at most two minutes it is no
      violation at all; the third draft stores null, which makes the pair a
      violation of its own. */
  lemma MissingAgeDiffers(a: seq<TakeHome.Article>, b: seq<Nullable.Article>, i: nat, m: nat, v: Unit, q: bool)
    requires 1 <= i < |a| && 1 <= i < |b|
    requires a[i].timestamp == TakeHome.NoTimestamp && b[i].timestamp.None?
    requires a[i - 1].timestamp == Render(Numeral(m), v, q, false)
    ensures !TakeHome.Violates(a, TakeHome.ParseTimeToMinutes, i) <==> ToMinutes(m, v) <= TakeHome.TimeTolerance
    ensures Nullable.PairViolation(b, Nullable.ParseTimeToMinutes, i) == Some(Nullable.Unparseable(i))
  {
    TakeHome.PlaceholderViolation(a, i);
    TakeHome.ParseRenderedUnit(m, v, q);
    Nullable.NullPair(b, i);
  }
}
