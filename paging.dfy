/** The browser, as the collector loops of every draft see it: page `k` (from 1)
    shows a list of items, and a "more" link leads from each page but the last
    to the next one. What the loops read from one item (the text of its age
    element, or the `title` attribute of its age span or of the parent of
    its "ago" link) is the item itself. */
module Paging {
  import opened Text

  /** One item and the number of the page that showed it. */
  datatype Entry<T> = Entry(page: nat, raw: T)

  /** The items of page `k`; a page past the last one shows nothing. */
  function PageAt<T>(batches: seq<seq<T>>, k: nat): seq<T>
  {
    if 1 <= k <= |batches| then batches[k - 1] else []
  }

  /** Page `k` carries a "more" link. */
  predicate HasMore<T>(batches: seq<seq<T>>, k: nat)
  {
    k < |batches|
  }

  /** The items of one page, each tagged with the page number. */
  function Tagged<T>(items: seq<T>, k: nat): (r: seq<Entry<T>>)
    ensures |r| == |items|
    ensures forall j :: 0 <= j < |r| ==> r[j] == Entry(k, items[j])
  {
    seq(|items|, j requires 0 <= j < |items| => Entry(k, items[j]))
  }

  /** Everything a reader sees who starts on page `k` and follows the "more"
      link until a page shows nothing or has no link. */
  function Stream<T>(batches: seq<seq<T>>, k: nat): seq<Entry<T>>
    requires k >= 1
    decreases |batches| + 1 - k
  {
    if |PageAt(batches, k)| == 0 then []
    else Tagged(PageAt(batches, k), k) + Stream(batches, k + 1)
  }

  /** Why reading stops: a page that shows nothing, or a page without a
      "more" link. */
  datatype Stop = EmptyPage(page: nat) | LastPage(page: nat)

  /** Where a reader starting on page `k` stops. */
  function StopOf<T>(batches: seq<seq<T>>, k: nat): (s: Stop)
    requires k >= 1
    ensures s.page >= k
    decreases |batches| + 1 - k
  {
    if |PageAt(batches, k)| == 0 then EmptyPage(k)
    else if !HasMore(batches, k) then LastPage(k)
    else StopOf(batches, k + 1)
  }

  /** Pages of the stream start at `k` and go up one at a time: page numbers
      never decrease, and two neighbours differ by at most one. */
  lemma {:induction false} StreamPages<T>(batches: seq<seq<T>>, k: nat)
    requires k >= 1
    ensures var s := Stream(batches, k);
      (s != [] ==> s[0].page == k)
      && (forall j :: 0 <= j < |s| ==> k <= s[j].page)
      && (forall j :: 0 < j < |s| ==> s[j - 1].page <= s[j].page <= s[j - 1].page + 1)
    decreases |batches| + 1 - k
  {
    var items := PageAt(batches, k);
    if |items| > 0 {
      var head := Tagged(items, k);
      var rest := Stream(batches, k + 1);
      StreamPages(batches, k + 1);
      var s := head + rest;
      assert s == Stream(batches, k);
      forall j | 0 < j < |s| ensures s[j - 1].page <= s[j].page <= s[j - 1].page + 1 {
        if j > |head| {
          assert s[j - 1] == rest[j - 1 - |head|] && s[j] == rest[j - |head|];
        } else if j == |head| {
          assert s[j] == rest[0];
        }
      }
    }
  }

  /** A page that shows nothing ends the reading: no item of the stream comes
      from it or from any later page. */
  lemma {:induction false} StreamStopsAtEmpty<T>(batches: seq<seq<T>>, k: nat, m: nat)
    requires 1 <= k <= m && |PageAt(batches, m)| == 0
    ensures forall j :: 0 <= j < |Stream(batches, k)| ==> Stream(batches, k)[j].page < m
    decreases |batches| + 1 - k
  {
    var items := PageAt(batches, k);
    if |items| > 0 {
      assert k != m;
      StreamStopsAtEmpty(batches, k + 1, m);
      var head := Tagged(items, k);
      var rest := Stream(batches, k + 1);
      var s: seq<Entry<T>> := head + rest;
      assert Stream(batches, k) == s;
      forall j | 0 <= j < |s| ensures s[j].page < m {
        if j >= |head| {
          assert s[j] == rest[j - |head|];
        }
      }
    }
  }

  /** The stream holds exactly the pages from `k` up to where reading stops:
      all of them when the last page is reached, all but the empty one
      otherwise. */
  lemma {:induction false} StreamEndsAtStop<T>(batches: seq<seq<T>>, k: nat)
    requires k >= 1
    ensures var s := Stream(batches, k);
      match StopOf(batches, k)
      case EmptyPage(m) => s == [] || s[|s| - 1].page == m - 1
      case LastPage(m) => s != [] && s[|s| - 1].page == m && m == |batches|
    decreases |batches| + 1 - k
  {
    var items := PageAt(batches, k);
    if |items| > 0 {
      StreamEndsAtStop(batches, k + 1);
      var rest := Stream(batches, k + 1);
      if !HasMore(batches, k) {
        assert rest == [];
      } else if rest == [] {
        assert StopOf(batches, k) == EmptyPage(k + 1);
      }
    }
  }

  /** Where the stream from page `k` sits inside a longer stream `s`: page
      `k`'s items first, then the stream from page `k + 1`. */
  lemma StreamSplit<T>(s: seq<Entry<T>>, base: nat, batches: seq<seq<T>>, k: nat)
    requires k >= 1 && base <= |s| && s[base..] == Stream(batches, k)
    requires |PageAt(batches, k)| > 0
    ensures base + |PageAt(batches, k)| <= |s|
    ensures forall t :: 0 <= t < |PageAt(batches, k)| ==> s[base + t] == Entry(k, PageAt(batches, k)[t])
    ensures s[base + |PageAt(batches, k)|..] == Stream(batches, k + 1)
  {
    var items := PageAt(batches, k);
    assert s[base..] == Tagged(items, k) + Stream(batches, k + 1);
    forall t | 0 <= t < |items| ensures s[base + t] == Entry(k, items[t]) {
      assert s[base + t] == s[base..][t];
    }
    assert s[base + |items|..] == s[base..][|items|..];
  }

  /** Past the items of a non-empty page `k` lies the stream from page
      `k + 1`. */
  lemma StreamNext<T>(s: seq<Entry<T>>, base: nat, batches: seq<seq<T>>, k: nat, n: nat)
    requires k >= 1 && base <= |s| && s[base..] == Stream(batches, k)
    requires |PageAt(batches, k)| > 0 && n == base + |PageAt(batches, k)|
    ensures n <= |s| && s[n..] == Stream(batches, k + 1)
  {
    StreamSplit(s, base, batches, k);
  }

  /** The first `n` items of a stream as the records a collector pushes:
      `f` turns the 0-based position and the item into a record. */
  function Records<T, A>(s: seq<Entry<T>>, n: nat, f: (nat, Entry<T>) -> A): (r: seq<A>)
    requires n <= |s|
    ensures |r| == n
    ensures forall j :: 0 <= j < n ==> r[j] == f(j, s[j])
  {
    seq(n, j requires 0 <= j < n => f(j, s[j]))
  }

  /** One more record is the next item's. */
  lemma RecordsNext<T, A>(s: seq<Entry<T>>, n: nat, f: (nat, Entry<T>) -> A)
    requires n < |s|
    ensures Records(s, n + 1, f) == Records(s, n, f) + [f(n, s[n])]
  {
  }
}
