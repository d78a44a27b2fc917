/** Characters, character runs and decimal numerals, as the JavaScript drafts
    (regular expressions, `parseInt`, `String.prototype.trim`) and the Python
    solutions see them. */
module Text {

  /** JavaScript's `null` next to a value. */
  datatype Option<T> = None | Some(value: T)

  function Min(a: nat, b: nat): nat { if a <= b then a else b }

  /** `\d` in a JavaScript regular expression: the ASCII digits, and nothing else. */
  predicate IsDigit(c: char) { '0' <= c <= '9' }

  /** `\s` in a JavaScript regular expression, which is also what `trim` removes:
      the WhiteSpace and LineTerminator code points of ECMAScript. */
  predicate IsSpace(c: char)
  {
    var n := c as int;
    if n < 0xA0 then n == 0x20 || 0x09 <= n <= 0x0D
    else
      n == 0xA0 || n == 0x1680 || 0x2000 <= n <= 0x200A || n == 0x2028 || n == 0x2029
      || n == 0x202F || n == 0x205F || n == 0x3000 || n == 0xFEFF
  }

  /** The two character classes the patterns repeat with `+`. */
  datatype CharClass = Digit | Space

  predicate InClass(c: char, k: CharClass)
  {
    match k
    case Digit => IsDigit(c)
    case Space => IsSpace(c)
  }

  /** Length of the longest run of class `k` that starts at position `p`:
      what a greedy `\d+` or `\s+` consumes there. */
  function Run(s: string, p: nat, k: CharClass): (n: nat)
    requires p <= |s|
    ensures p + n <= |s|
    decreases |s| - p
  {
    if p < |s| && InClass(s[p], k) then 1 + Run(s, p + 1, k) else 0
  }

  /** The run is maximal: all of it is in the class, and what follows is not. */
  lemma {:induction false} RunIsMaximal(s: string, p: nat, k: CharClass)
    requires p <= |s|
    ensures forall j :: p <= j < p + Run(s, p, k) ==> InClass(s[j], k)
    ensures p + Run(s, p, k) == |s| || !InClass(s[p + Run(s, p, k)], k)
    decreases |s| - p
  {
    if p < |s| && InClass(s[p], k) {
      RunIsMaximal(s, p + 1, k);
    }
  }

  /** Length of the longest run of class `k` at the very end of `s`. */
  function TrailingRun(s: string, k: CharClass): (n: nat)
    ensures n <= |s|
    ensures forall j :: |s| - n <= j < |s| ==> InClass(s[j], k)
    ensures n == |s| || !InClass(s[|s| - n - 1], k)
  {
    if s != [] && InClass(s[|s| - 1], k) then 1 + TrailingRun(s[..|s| - 1], k) else 0
  }

  /** A run is determined by its extent: `n` class characters from `p`, then a
      character outside the class or the end of the string. */
  lemma {:induction false} RunIs(s: string, p: nat, n: nat, k: CharClass)
    requires p + n <= |s|
    requires forall j :: p <= j < p + n ==> InClass(s[j], k)
    requires p + n == |s| || !InClass(s[p + n], k)
    ensures Run(s, p, k) == n
    decreases n
  {
    if n > 0 {
      RunIs(s, p + 1, n - 1, k);
    }
  }

  /** Runs are read the same way after a prefix is put in front of the text. */
  lemma {:induction false} RunShift(d: string, t: string, k: nat, c: CharClass)
    requires k <= |t|
    ensures Run(d + t, |d| + k, c) == Run(t, k, c)
    decreases |t| - k
  {
    if k < |t| {
      assert (d + t)[|d| + k] == t[k];
      RunShift(d, t, k + 1, c);
    }
  }

  predicate AllDigits(s: string) { forall j :: 0 <= j < |s| ==> IsDigit(s[j]) }

  function DigitValue(c: char): nat
    requires IsDigit(c)
  {
    c as int - '0' as int
  }

  /** `parseInt(s, 10)` on a string of decimal digits (leading zeros allowed). */
  function DigitsValue(s: string): nat
    requires AllDigits(s)
  {
    if s == [] then 0 else DigitsValue(s[..|s| - 1]) * 10 + DigitValue(s[|s| - 1])
  }

  function DigitChar(d: nat): (c: char)
    requires d < 10
    ensures IsDigit(c) && DigitValue(c) == d
  {
    ('0' as int + d) as char
  }

  /** The decimal numeral of `n`, without leading zeros. */
  function Numeral(n: nat): (s: string)
    ensures s != [] && AllDigits(s)
  {
    if n < 10 then [DigitChar(n)] else Numeral(n / 10) + [DigitChar(n % 10)]
  }

  /** Reading back the numeral of `n` gives `n`. */
  lemma {:induction false} NumeralValue(n: nat)
    ensures DigitsValue(Numeral(n)) == n
  {
    var s := Numeral(n);
    if n >= 10 {
      NumeralValue(n / 10);
      assert s[..|s| - 1] == Numeral(n / 10);
    } else {
      assert s[..|s| - 1] == [];
    }
  }

  /** ASCII lower-casing, the only case folding the `i` flag applies to the
      letters of the patterns modelled here. */
  function ToLower(c: char): char
  {
    if 'A' <= c <= 'Z' then (c as int + 32) as char else c
  }

  /** `toLowerCase` on ASCII text. */
  function Lower(s: string): (t: string)
    ensures |t| == |s| && forall j :: 0 <= j < |s| ==> t[j] == ToLower(s[j])
  {
    seq(|s|, j requires 0 <= j < |s| => ToLower(s[j]))
  }

  predicate HasUpper(s: string) { exists j :: 0 <= j < |s| && 'A' <= s[j] <= 'Z' }

  /** `t` occurs in `s` at position `a`. */
  predicate SliceAt(s: string, a: nat, t: string) { a + |t| <= |s| && s[a..a + |t|] == t }

  /** `t` sits at position `a` of `s`, with nothing but blanks before it
      and after it. */
  predicate BlankAround(s: string, a: nat, t: string)
  {
    SliceAt(s, a, t)
    && (forall j :: 0 <= j < a ==> IsSpace(s[j]))
    && (forall j :: a + |t| <= j < |s| ==> IsSpace(s[j]))
  }

  /** `String.prototype.trim`: drops the leading and the trailing `\s` run,
      and nothing else: what is dropped before and after the result is all
      blank, and the result neither starts nor ends with a blank. */
  function Trim(s: string): (t: string)
    ensures |t| <= |s|
    ensures t == [] || (!IsSpace(t[0]) && !IsSpace(t[|t| - 1]))
    ensures exists a: nat :: BlankAround(s, a, t)
  {
    var a := Run(s, 0, Space);
    var rest := s[a..];
    var t := rest[..|rest| - TrailingRun(rest, Space)];
    TrimParts(s, a, t);
    t
  }

  /** The two runs `Trim` drops leave a slice with blanks around it and none
      at its ends. */
  lemma TrimParts(s: string, a: nat, t: string)
    requires a == Run(s, 0, Space)
    requires t == s[a..][..|s[a..]| - TrailingRun(s[a..], Space)]
    ensures BlankAround(s, a, t)
    ensures t == [] || (!IsSpace(t[0]) && !IsSpace(t[|t| - 1]))
  {
    RunIsMaximal(s, 0, Space);
    var rest := s[a..];
    assert forall j :: a + |t| <= j < |s| ==> s[j] == rest[j - a];
  }

  /** Trimming twice is trimming once: the result of `trim` has no blank
      left at either end to drop. */
  lemma TrimTwice(s: string)
    ensures Trim(Trim(s)) == Trim(s)
  {
    var t := Trim(s);
    if t != [] {
      assert Run(t, 0, Space) == 0;
      assert TrailingRun(t, Space) == 0;
      assert t[0..] == t;
    }
  }
}
