/** The relative-age pattern all three scraper drafts use,
    `(\d+)\s+(minute|hour|day)s?\s+ago`, as a hand-written matcher.

    Matching from a fixed start position is deterministic: `\d+` must take the
    whole digit run (a shorter run leaves a digit where `\s` is needed), `\s+`
    must take the whole blank run (a shorter run leaves a blank where a letter
    is needed), the three unit words begin with different letters, and an `s`
    left unconsumed by `s?` cannot stand where `\s+` is needed. So one
    left-to-right pass decides the match at a position, and an unanchored
    search is the first position where that pass succeeds. */
module RelativeTime {
  import opened Text

  /** The capture groups of a successful match: `match[1]`, the digits, and
      `match[2]`, the unit word as it is written in the text. */
  datatype Match = Match(digits: string, unit: string)

  /** The three units of a listing's ages. */
  datatype Unit = Minute | Hour | Day

  function UnitWord(u: Unit): string
  {
    match u
    case Minute => "minute"
    case Hour => "hour"
    case Day => "day"
  }

  /** How a lower-case letter of the pattern sees a character of the text:
      as written, or ASCII-lower-cased under the `i` flag (`ci`). */
  function Fold(c: char, ci: bool): char
  {
    if ci then ToLower(c) else c
  }

  /** Position `q` of `s` holds a character the pattern letter `c` accepts. */
  predicate LetterAt(s: string, q: nat, c: char, ci: bool)
  {
    q < |s| && Fold(s[q], ci) == c
  }

  /** The word of unit `u` is spelt at position `q`, letter by letter. */
  predicate UnitWordAt(s: string, q: nat, u: Unit, ci: bool)
  {
    match u
    case Minute =>
      LetterAt(s, q, 'm', ci) && LetterAt(s, q + 1, 'i', ci) && LetterAt(s, q + 2, 'n', ci)
      && LetterAt(s, q + 3, 'u', ci) && LetterAt(s, q + 4, 't', ci) && LetterAt(s, q + 5, 'e', ci)
    case Hour =>
      LetterAt(s, q, 'h', ci) && LetterAt(s, q + 1, 'o', ci) && LetterAt(s, q + 2, 'u', ci)
      && LetterAt(s, q + 3, 'r', ci)
    case Day =>
      LetterAt(s, q, 'd', ci) && LetterAt(s, q + 1, 'a', ci) && LetterAt(s, q + 2, 'y', ci)
  }

  /** The letter-by-letter spelling, stated for all positions of the word at once. */
  lemma UnitWordAtIff(s: string, q: nat, u: Unit, ci: bool)
    ensures UnitWordAt(s, q, u, ci) <==>
      q + |UnitWord(u)| <= |s| && forall j :: 0 <= j < |UnitWord(u)| ==> Fold(s[q + j], ci) == UnitWord(u)[j]
  {
    var w := UnitWord(u);
    if q + |w| <= |s| && forall j :: 0 <= j < |w| ==> Fold(s[q + j], ci) == w[j] {
      assert Fold(s[q + 0], ci) == w[0];
      assert Fold(s[q + 1], ci) == w[1];
      assert Fold(s[q + 2], ci) == w[2];
      if u != Day {
        assert Fold(s[q + 3], ci) == w[3];
      }
      if u == Minute {
        assert Fold(s[q + 4], ci) == w[4];
        assert Fold(s[q + 5], ci) == w[5];
      }
    }
    if UnitWordAt(s, q, u, ci) {
      forall j | 0 <= j < |w| ensures Fold(s[q + j], ci) == w[j] {
        assert j == 0 || j == 1 || j == 2 || j == 3 || j == 4 || j == 5;
      }
    }
  }

  /** The alternative `(minute|hour|day)` at position `q`: the unit whose word
      is spelt there. */
  function UnitAt(s: string, q: nat, ci: bool): (u: Option<Unit>)
    ensures u.Some? ==> UnitWordAt(s, q, u.value, ci) && q + |UnitWord(u.value)| <= |s|
    ensures u.None? ==> !UnitWordAt(s, q, Minute, ci) && !UnitWordAt(s, q, Hour, ci) && !UnitWordAt(s, q, Day, ci)
  {
    if UnitWordAt(s, q, Minute, ci) then Some(Minute)
    else if UnitWordAt(s, q, Hour, ci) then Some(Hour)
    else if UnitWordAt(s, q, Day, ci) then Some(Day)
    else None
  }

  /** `ago` at position `q`. */
  predicate AgoAt(s: string, q: nat, ci: bool)
  {
    LetterAt(s, q, 'a', ci) && LetterAt(s, q + 1, 'g', ci) && LetterAt(s, q + 2, 'o', ci)
  }

  /** `s?\s+ago` right after a unit word that ends at `e`. */
  predicate SuffixAt(s: string, e: nat, ci: bool)
    requires e <= |s|
  {
    var e' := if LetterAt(s, e, 's', ci) then e + 1 else e;
    var w := Run(s, e', Space);
    w > 0 && AgoAt(s, e' + w, ci)
  }

  /** `\s+(minute|hour|day)s?\s+ago` at position `q`; yields the unit word as
      it is written in the text. */
  function TailAt(s: string, q: nat, ci: bool): (u: Option<string>)
    requires q <= |s|
  {
    var w := Run(s, q, Space);
    var r := q + w;
    if w == 0 then None
    else
      match UnitAt(s, r, ci)
      case None => None
      case Some(u) =>
        var e := r + |UnitWord(u)|;
        if SuffixAt(s, e, ci) then Some(s[r..e]) else None
  }

  /** The pattern matched starting exactly at position `p` of `s`. */
  function MatchAt(s: string, p: nat, ci: bool): (m: Option<Match>)
    requires p <= |s|
    ensures m.Some? ==> m.value.digits != [] && AllDigits(m.value.digits)
  {
    var d := Run(s, p, Digit);
    RunIsMaximal(s, p, Digit);
    if d == 0 then None
    else
      match TailAt(s, p + d, ci)
      case None => None
      case Some(u) => Some(Match(s[p..p + d], u))
  }

  /** `String.prototype.match` without the `g` flag: the match at the leftmost
      start position at or after `p`, if any. */
  function Search(s: string, p: nat, ci: bool): (m: Option<Match>)
    requires p <= |s|
    ensures m.Some? ==> m.value.digits != [] && AllDigits(m.value.digits)
    decreases |s| - p
  {
    if MatchAt(s, p, ci).Some? then MatchAt(s, p, ci)
    else if p == |s| then None
    else Search(s, p + 1, ci)
  }

  /** An age of `value` units, in minutes: `value`, `value * 60` or
      `value * 24 * 60`. */
  function ToMinutes(value: nat, u: Unit): nat
  {
    match u
    case Minute => value
    case Hour => value * 60
    case Day => value * 24 * 60
  }

  /** The `===` chain after the match: the unit a captured word names, or
      `None` for any other word. */
  function UnitNamed(w: string): Option<Unit>
  {
    if w == "minute" then Some(Minute)
    else if w == "hour" then Some(Hour)
    else if w == "day" then Some(Day)
    else None
  }

  /** The captured unit text names a unit: exactly as written without the `i`
      flag, and after lower-casing with it. So the conversion after a match
      never falls through to its last line. */
  lemma UnitIsKnown(s: string, p: nat, ci: bool)
    requires p <= |s| && MatchAt(s, p, ci).Some?
    ensures !ci ==> UnitNamed(MatchAt(s, p, ci).value.unit).Some?
    ensures ci ==> UnitNamed(Lower(MatchAt(s, p, ci).value.unit)).Some?
  {
    var q := p + Run(s, p, Digit);
    MatchFromTail(s, p, Run(s, p, Digit), ci);
    TailNamesUnit(s, q, ci);
  }

  /** What the tail pattern captures names the unit it matched. */
  lemma TailNamesUnit(s: string, q: nat, ci: bool)
    requires q <= |s| && TailAt(s, q, ci).Some?
    ensures !ci ==> UnitNamed(TailAt(s, q, ci).value).Some?
    ensures ci ==> UnitNamed(Lower(TailAt(s, q, ci).value)).Some?
  {
    var r := q + Run(s, q, Space);
    var u := UnitAt(s, r, ci).value;
    assert TailAt(s, q, ci).value == s[r..r + |UnitWord(u)|];
    WordNamesUnit(s, r, u, ci);
  }

  /** A unit word spelt in the text, cut out (and lower-cased under the `i`
      flag), is the unit word itself. */
  lemma WordNamesUnit(s: string, r: nat, u: Unit, ci: bool)
    requires UnitWordAt(s, r, u, ci)
    ensures r + |UnitWord(u)| <= |s|
    ensures !ci ==> UnitNamed(s[r..r + |UnitWord(u)|]) == Some(u)
    ensures ci ==> UnitNamed(Lower(s[r..r + |UnitWord(u)|])) == Some(u)
  {
    var word := UnitWord(u);
    UnitWordAtIff(s, r, u, ci);
    var c := s[r..r + |word|];
    var c' := if ci then Lower(c) else c;
    forall j | 0 <= j < |word| ensures c'[j] == word[j] {
      assert Fold(s[r + j], ci) == word[j];
    }
    assert c' == word;
  }

  /** The unit word as a listing shows it, in capitals with `caps`. */
  function Shown(u: Unit, caps: bool): string
  {
    match u
    case Minute => if caps then "MINUTE" else "minute"
    case Hour => if caps then "HOUR" else "hour"
    case Day => if caps then "DAY" else "day"
  }

  /** The text after the numeral in a rendered age. */
  function RenderTail(u: Unit, plural: bool, caps: bool): string
  {
    " " + Shown(u, caps) + (if plural then "s" else "") + " ago"
  }

  /** The text a listing shows for an age written with the numeral `d`:
      "1 minute ago", "5 hours ago", and with `caps` the unit word in capitals
      ("3 DAYS ago"). */
  function Render(d: string, u: Unit, plural: bool, caps: bool): string
  {
    d + RenderTail(u, plural, caps)
  }

  /** The shown word is spelt with the letters of the unit word: always
      without capitals, and under the `i` flag also in capitals. In capitals
      its first letter is none of the three initials the pattern expects
      without the flag. */
  lemma ShownSpells(u: Unit, caps: bool, ci: bool)
    ensures |Shown(u, caps)| == |UnitWord(u)|
    ensures ci || !caps ==> forall j :: 0 <= j < |UnitWord(u)| ==> Fold(Shown(u, caps)[j], ci) == UnitWord(u)[j]
    ensures caps ==> Shown(u, caps)[0] in {'M', 'H', 'D'}
    ensures forall j :: 0 <= j < |Shown(u, caps)| ==> !IsDigit(Shown(u, caps)[j]) && !IsSpace(Shown(u, caps)[j])
  {
  }

  /** Where the parts of a rendered tail sit: one blank, the shown word, the
      optional `s`, one blank and `ago`. */
  lemma TailLayout(u: Unit, plural: bool, caps: bool)
    ensures var t := RenderTail(u, plural, caps);
      var k := 1 + |Shown(u, caps)|;
      var k' := if plural then k + 1 else k;
      |t| == k' + 4
      && t[0] == ' '
      && t[1..k] == Shown(u, caps)
      && (forall j :: 0 <= j < |Shown(u, caps)| ==> t[1 + j] == Shown(u, caps)[j])
      && (plural ==> t[k] == 's')
      && t[k'] == ' ' && t[k' + 1] == 'a' && t[k' + 2] == 'g' && t[k' + 3] == 'o'
  {
    var word := Shown(u, caps);
    var head := " " + word;
    var sfx := if plural then "s" else "";
    var t := RenderTail(u, plural, caps);
    assert t == head + (sfx + " ago");
    assert t[..|head|] == head;
    forall j | 0 <= j < |word| ensures t[1 + j] == word[j] {
      assert t[1 + j] == head[1 + j];
    }
  }

  /** No character of a rendered tail is a digit. */
  lemma TailHasNoDigit(u: Unit, plural: bool, caps: bool)
    ensures forall k :: 0 <= k < |RenderTail(u, plural, caps)| ==> !IsDigit(RenderTail(u, plural, caps)[k])
  {
    var t := RenderTail(u, plural, caps);
    var word := Shown(u, caps);
    TailLayout(u, plural, caps);
    ShownSpells(u, caps, false);
    forall k | 0 <= k < |t| ensures !IsDigit(t[k]) {
      if 1 <= k < 1 + |word| {
        assert t[k] == word[k - 1];
      }
    }
  }

  /** Where the parts of a rendered age sit: the numeral, then the tail. */
  lemma RenderLayout(d: string, u: Unit, plural: bool, caps: bool)
    ensures var s := Render(d, u, plural, caps);
      |s| == |d| + |RenderTail(u, plural, caps)|
      && s[..|d|] == d
      && forall k :: 0 <= k < |RenderTail(u, plural, caps)| ==> s[|d| + k] == RenderTail(u, plural, caps)[k]
  {
  }

  /** In a rendered age the numeral is one whole digit run. */
  lemma RenderDigits(d: string, u: Unit, plural: bool, caps: bool, q: nat)
    requires AllDigits(d) && q <= |d|
    ensures Run(Render(d, u, plural, caps), q, Digit) == |d| - q
  {
    var t := RenderTail(u, plural, caps);
    var s := Render(d, u, plural, caps);
    assert s[|d|] == t[0] == ' ' by {
      RenderLayout(d, u, plural, caps);
      TailLayout(u, plural, caps);
    }
    assert forall j :: q <= j < |d| ==> InClass(s[j], Digit) by {
      RenderLayout(d, u, plural, caps);
      assert forall j :: 0 <= j < |d| ==> s[j] == s[..|d|][j];
    }
    RunIs(s, q, |d| - q, Digit);
  }

  /** In a rendered age one blank follows the numeral. */
  lemma RenderBlank(d: string, u: Unit, plural: bool, caps: bool)
    ensures |d| + 1 < |Render(d, u, plural, caps)|
    ensures Run(Render(d, u, plural, caps), |d|, Space) == 1
  {
    var t := RenderTail(u, plural, caps);
    var s := Render(d, u, plural, caps);
    assert s[|d|] == ' ' && !IsSpace(s[|d| + 1]) by {
      RenderLayout(d, u, plural, caps);
      TailLayout(u, plural, caps);
      ShownSpells(u, caps, false);
      assert s[|d|] == t[0];
      assert s[|d| + 1] == t[1] == Shown(u, caps)[0];
    }
    RunIs(s, |d|, 1, Space);
  }

  /** In a rendered age the unit alternative after the blank finds the unit:
      always without capitals, and under the `i` flag also in capitals;
      capitals without the flag find nothing. */
  lemma RenderUnit(d: string, u: Unit, plural: bool, caps: bool, ci: bool)
    ensures UnitAt(Render(d, u, plural, caps), |d| + 1, ci) == if ci || !caps then Some(u) else None
  {
    var t := RenderTail(u, plural, caps);
    var s := Render(d, u, plural, caps);
    var word := Shown(u, caps);
    var r := |d| + 1;
    assert |d| + 1 + |word| <= |s| && forall j :: 0 <= j < |word| ==> s[r + j] == word[j] by {
      RenderLayout(d, u, plural, caps);
      TailLayout(u, plural, caps);
      forall j | 0 <= j < |word| ensures s[r + j] == word[j] {
        assert s[|d| + (1 + j)] == t[1 + j];
      }
    }
    ShownSpells(u, caps, ci);
    assert s[r + 0] == word[0];
    if ci || !caps {
      UnitWordAtIff(s, r, u, ci);
    }
  }

  /** In a rendered age `s?\s+ago` follows the shown word. */
  lemma RenderSuffix(d: string, u: Unit, plural: bool, caps: bool, ci: bool)
    ensures |d| + 1 + |Shown(u, caps)| <= |Render(d, u, plural, caps)|
    ensures SuffixAt(Render(d, u, plural, caps), |d| + 1 + |Shown(u, caps)|, ci)
  {
    var t := RenderTail(u, plural, caps);
    var s := Render(d, u, plural, caps);
    var k := 1 + |Shown(u, caps)|;
    var k' := if plural then k + 1 else k;
    var e := |d| + k;
    var e' := |d| + k';
    assert |s| == e' + 4 && (s[e] == 's' <==> plural) && s[e'] == ' '
      && s[e' + 1] == 'a' && s[e' + 2] == 'g' && s[e' + 3] == 'o' by {
      RenderLayout(d, u, plural, caps);
      TailLayout(u, plural, caps);
      assert s[|d| + k] == t[k] && s[|d| + k'] == t[k'];
      assert s[|d| + (k' + 1)] == t[k' + 1] && s[|d| + (k' + 2)] == t[k' + 2] && s[|d| + (k' + 3)] == t[k' + 3];
    }
    RunIs(s, e', 1, Space);
  }

  /** The tail pattern read off its parts: one blank, a unit word and the
      suffix. */
  lemma TailFromParts(s: string, q: nat, u: Unit, ci: bool)
    requires q + 1 <= |s|
    requires Run(s, q, Space) == 1
    requires UnitAt(s, q + 1, ci) == Some(u)
    requires SuffixAt(s, q + 1 + |UnitWord(u)|, ci)
    ensures TailAt(s, q, ci) == Some(s[q + 1..q + 1 + |UnitWord(u)|])
  {
  }

  /** A match read off its parts: a digit run from `p`, then the tail. */
  lemma MatchFromTail(s: string, p: nat, n: nat, ci: bool)
    requires p + n <= |s| && n > 0
    requires Run(s, p, Digit) == n
    ensures MatchAt(s, p, ci) == if TailAt(s, p + n, ci).Some? then Some(Match(s[p..p + n], TailAt(s, p + n, ci).value)) else None
  {
  }

  /** The numeral and the shown word, cut back out of a rendered age. */
  lemma RenderSlices(d: string, u: Unit, plural: bool, caps: bool)
    ensures |d| + 1 + |Shown(u, caps)| <= |Render(d, u, plural, caps)|
    ensures Render(d, u, plural, caps)[..|d|] == d
    ensures Render(d, u, plural, caps)[|d| + 1..|d| + 1 + |Shown(u, caps)|] == Shown(u, caps)
  {
    var t := RenderTail(u, plural, caps);
    var s := Render(d, u, plural, caps);
    var k := 1 + |Shown(u, caps)|;
    TailLayout(u, plural, caps);
    assert s[|d|..] == t;
    assert s[|d| + 1..|d| + k] == s[|d|..][1..k];
  }

  /** After the numeral of a rendered age the tail pattern reads the shown
      word; in capitals only under the `i` flag. */
  lemma RenderTailAt(d: string, u: Unit, plural: bool, caps: bool, ci: bool)
    ensures TailAt(Render(d, u, plural, caps), |d|, ci) == if ci || !caps then Some(Shown(u, caps)) else None
  {
    var s := Render(d, u, plural, caps);
    RenderBlank(d, u, plural, caps);
    RenderUnit(d, u, plural, caps, ci);
    if ci || !caps {
      ShownSpells(u, caps, ci);
      RenderSuffix(d, u, plural, caps, ci);
      TailFromParts(s, |d|, u, ci);
      RenderSlices(d, u, plural, caps);
    }
  }

  /** The pattern reads back the age a listing renders: digits and unit word
      are captured as written. Capitals match only under the `i` flag. */
  lemma RenderMatches(d: string, u: Unit, plural: bool, caps: bool, ci: bool)
    requires d != [] && AllDigits(d)
    requires ci || !caps
    ensures MatchAt(Render(d, u, plural, caps), 0, ci) == Some(Match(d, Shown(u, caps)))
    ensures Search(Render(d, u, plural, caps), 0, ci) == Some(Match(d, Shown(u, caps)))
  {
    var s := Render(d, u, plural, caps);
    RenderDigits(d, u, plural, caps, 0);
    RenderTailAt(d, u, plural, caps, ci);
    RenderSlices(d, u, plural, caps);
    MatchFromTail(s, 0, |d|, ci);
  }

  /** A search finds nothing when no position from `p` on starts a match. */
  lemma {:induction false} SearchFindsNothing(s: string, p: nat, ci: bool)
    requires p <= |s|
    requires forall q :: p <= q <= |s| ==> MatchAt(s, q, ci).None?
    ensures Search(s, p, ci).None?
    decreases |s| - p
  {
    if p < |s| {
      SearchFindsNothing(s, p + 1, ci);
    }
  }

  /** Without the `i` flag, no position of an age whose unit word is in
      capitals starts a match. */
  lemma RenderCapsNoMatchAt(d: string, u: Unit, plural: bool, q: nat)
    requires AllDigits(d) && q <= |Render(d, u, plural, true)|
    ensures MatchAt(Render(d, u, plural, true), q, false).None?
  {
    var t := RenderTail(u, plural, true);
    var s := Render(d, u, plural, true);
    if q < |d| {
      RenderDigits(d, u, plural, true, q);
      RenderTailAt(d, u, plural, true, false);
      MatchFromTail(s, q, |d| - q, false);
    } else if q < |s| {
      assert !IsDigit(s[q]) by {
        RenderLayout(d, u, plural, true);
        TailHasNoDigit(u, plural, true);
        assert s[|d| + (q - |d|)] == t[q - |d|];
      }
    }
  }

  /** Without the `i` flag, an age whose unit word is in capitals is not
      recognised anywhere in the text. */
  lemma RenderCapsNoMatch(d: string, u: Unit, plural: bool)
    requires AllDigits(d)
    ensures Search(Render(d, u, plural, true), 0, false).None?
  {
    var s := Render(d, u, plural, true);
    forall q | 0 <= q <= |s| ensures MatchAt(s, q, false).None? {
      RenderCapsNoMatchAt(d, u, plural, q);
    }
    SearchFindsNothing(s, 0, false);
  }

  /** Text without a single digit holds no age anywhere: the pattern needs at
      least one digit. */
  lemma NoDigitsNoMatch(s: string, ci: bool)
    requires forall j :: 0 <= j < |s| ==> !IsDigit(s[j])
    ensures Search(s, 0, ci).None?
  {
    forall q | 0 <= q <= |s| ensures MatchAt(s, q, ci).None? {
      if q < |s| {
        assert !IsDigit(s[q]);
      }
    }
    SearchFindsNothing(s, 0, ci);
  }
}
