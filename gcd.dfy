/** Greatest Common Divisor of Strings (LeetCode 1071): a string t divides
    s when s is t repeated some number of times. Two strings have a common
    divisor only when they commute under concatenation, and then the longest
    one is the prefix whose length is the greatest common divisor of their
    lengths, found by Euclid's remainder loop. */
module GcdStrings {
  import opened Text

  /** `s` repeated `n` times. */
  function Repeat(s: string, n: nat): string
  {
    if n == 0 then [] else s + Repeat(s, n - 1)
  }

  lemma {:induction false} RepeatLength(s: string, n: nat)
    ensures |Repeat(s, n)| == n * |s|
  {
    if n > 0 {
      RepeatLength(s, n - 1);
    }
  }

  lemma {:induction false} RepeatAdd(s: string, a: nat, b: nat)
    ensures Repeat(s, a + b) == Repeat(s, a) + Repeat(s, b)
    decreases a
  {
    if a > 0 {
      RepeatAdd(s, a - 1, b);
    }
  }

  /** `d` divides `n`. */
  ghost predicate Divides(d: nat, n: nat)
  {
    exists k: int :: k * d == n
  }

  lemma MulAtLeast(b: int, t: int)
    requires b > 0 && t >= 1
    ensures b * t >= b
  {
    assert b * t == b + b * (t - 1);
  }

  lemma MulAtMostZero(b: int, t: int)
    requires b > 0 && t <= 0
    ensures b * t <= 0
  {
    if t < 0 {
      MulAtLeast(b, -t);
      assert b * t == -(b * -t);
    }
  }

  /** Euclidean division is unique. */
  lemma DivModUnique(a: int, b: int, q: int, r: int)
    requires b > 0 && a == b * q + r && 0 <= r < b
    ensures a / b == q && a % b == r
  {
    var t := a / b - q;
    assert b * t == r - a % b;
    if t >= 1 {
      MulAtLeast(b, t);
    } else if t <= -1 {
      MulAtLeast(b, -t);
    }
  }

  /** The greatest common divisor, by repeated subtraction: a reference
      definition independent of the remainder loop. */
  function Gcd(a: nat, b: nat): (g: nat)
    ensures a + b > 0 ==> g > 0
    ensures a > 0 ==> g <= a
    ensures b > 0 ==> g <= b
    decreases a + b
  {
    if a == 0 then b
    else if b == 0 then a
    else if a >= b then Gcd(a - b, b)
    else Gcd(a, b - a)
  }

  lemma {:induction false} GcdSymmetric(a: nat, b: nat)
    ensures Gcd(a, b) == Gcd(b, a)
    decreases a + b
  {
    if a > 0 && b > 0 && a != b {
      if a > b {
        GcdSymmetric(a - b, b);
      } else {
        GcdSymmetric(a, b - a);
      }
    }
  }

  /** Subtracting `b` from `a` until it is below `b` leaves the gcd alone. */
  lemma {:induction false} GcdRemainder(a: nat, b: nat)
    requires b > 0
    ensures Gcd(a % b, b) == Gcd(a, b)
    decreases a
  {
    if a >= b {
      DivModUnique(a - b, b, a / b - 1, a % b);
      GcdRemainder(a - b, b);
    } else {
      DivModUnique(a, b, 0, a);
    }
  }

  /** One step of Euclid's loop keeps the gcd. */
  lemma EuclidStep(a: nat, b: nat)
    requires b > 0
    ensures Gcd(b, a % b) == Gcd(a, b)
  {
    GcdRemainder(a, b);
    GcdSymmetric(a % b, b);
  }

  lemma DividesSum(d: nat, a: nat, b: nat)
    requires Divides(d, a) && Divides(d, b)
    ensures Divides(d, a + b)
  {
    var p :| p * d == a;
    var q :| q * d == b;
    assert (p + q) * d == a + b;
  }

  lemma DividesDifference(d: nat, a: nat, b: nat)
    requires b <= a && Divides(d, a) && Divides(d, b)
    ensures Divides(d, a - b)
  {
    var p :| p * d == a;
    var q :| q * d == b;
    assert (p - q) * d == a - b;
  }

  /** `Gcd` divides both numbers ... */
  lemma {:induction false} GcdDivides(a: nat, b: nat)
    ensures Divides(Gcd(a, b), a) && Divides(Gcd(a, b), b)
    decreases a + b
  {
    var g := Gcd(a, b);
    if a == 0 {
      assert 0 * g == a && 1 * g == b;
    } else if b == 0 {
      assert 1 * g == a && 0 * g == b;
    } else if a >= b {
      GcdDivides(a - b, b);
      DividesSum(g, a - b, b);
    } else {
      GcdDivides(a, b - a);
      DividesSum(g, a, b - a);
    }
  }

  /** ... and every common divisor divides it. */
  lemma {:induction false} GcdIsGreatest(a: nat, b: nat, d: nat)
    requires Divides(d, a) && Divides(d, b)
    ensures Divides(d, Gcd(a, b))
    decreases a + b
  {
    if a > 0 && b > 0 {
      if a >= b {
        DividesDifference(d, a, b);
        GcdIsGreatest(a - b, b, d);
      } else {
        DividesDifference(d, b, a);
        GcdIsGreatest(a, b - a, d);
      }
    }
  }

  /** A positive divisor of a positive number is no larger than it. */
  lemma DivisorAtMost(d: nat, n: nat)
    requires d > 0 && n > 0 && Divides(d, n)
    ensures d <= n
  {
    var k :| k * d == n;
    if k >= 1 {
      MulAtLeast(d, k);
    } else {
      MulAtMostZero(d, k);
      assert false;
    }
  }

  /** The inner `gcd`: `a, b = b, a % b` while `b` is not zero. */
  method EuclidGcd(a: nat, b: nat) returns (g: nat)
    ensures g == Gcd(a, b)
  {
    var x, y := a, b;
    while y != 0
      invariant Gcd(x, y) == Gcd(a, b)
      decreases y
    {
      EuclidStep(x, y);
      x, y := y, x % y;
    }
    g := x;
  }

  /** What `gcdOfStrings` returns: nothing when the strings do not commute,
      and otherwise the prefix of `str1` of the gcd length (a slice, so
      clipped to `str1`). */
  function GcdPrefix(str1: string, str2: string): (r: string)
    ensures r <= str1
  {
    if str1 + str2 != str2 + str1 then ""
    else str1[..Min(Gcd(|str1|, |str2|), |str1|)]
  }

  method GcdOfStrings(str1: string, str2: string) returns (r: string)
    ensures r == GcdPrefix(str1, str2)
  {
    if str1 + str2 != str2 + str1 {
      return "";
    }
    var gcdLength := EuclidGcd(|str1|, |str2|);
    r := str1[..Min(gcdLength, |str1|)];
  }

  /** A string that commutes with a shorter one starts with it, and what
      follows still commutes with it. */
  lemma DropCommonPrefix(x: string, y: string) returns (rest: string)
    requires x + y == y + x && |y| <= |x|
    ensures x == y + rest && rest + y == y + rest
  {
    rest := x[|y|..];
    assert x[..|y|] == y by {
      forall k | 0 <= k < |y|
        ensures x[k] == y[k]
      {
        assert (x + y)[k] == (y + x)[k];
      }
    }
    assert x == y + rest;
    assert (x + y)[|y|..] == rest + y;
    assert (y + x)[|y|..] == x;
  }

  /** Of two strings that commute, every prefix no longer than the second
      is a prefix of the second. */
  lemma CommutingPrefix(a: string, b: string, k: nat)
    requires a + b == b + a && k <= |b|
    ensures (a + b)[..k] == b[..k]
  {
    assert (b + a)[..k] == b[..k];
  }

  /** Two strings that commute are both repetitions of their common prefix
      of the gcd length: the proof follows the subtraction steps of `Gcd`. */
  lemma {:induction false} CommonPowers(x: string, y: string) returns (m: nat, n: nat)
    requires x + y == y + x && |x| + |y| > 0
    ensures x == Repeat((x + y)[..Gcd(|x|, |y|)], m)
    ensures y == Repeat((x + y)[..Gcd(|x|, |y|)], n)
    decreases |x| + |y|
  {
    var g := Gcd(|x|, |y|);
    var z := (x + y)[..g];
    if |x| == 0 {
      assert z == y;
      assert Repeat(z, 1) == z + [];
      m, n := 0, 1;
    } else if |y| == 0 {
      assert z == x;
      assert Repeat(z, 1) == z + [];
      m, n := 1, 0;
    } else if |x| >= |y| {
      var rest := DropCommonPrefix(x, y);
      assert g == Gcd(|rest|, |y|);
      var m', n' := CommonPowers(rest, y);
      CommutingPrefix(rest, y, g);
      CommutingPrefix(x, y, g);
      assert (rest + y)[..g] == z;
      RepeatAdd(z, n', m');
      assert x == Repeat(z, n' + m');
      m, n := n' + m', n';
    } else {
      var rest := DropCommonPrefix(y, x);
      assert g == Gcd(|x|, |rest|);
      var m', n' := CommonPowers(x, rest);
      CommutingPrefix(rest, x, g);
      CommutingPrefix(y, x, g);
      assert (x + rest)[..g] == (rest + x)[..g] == x[..g];
      assert z == x[..g] by {
        assert (x + y)[..g] == (y + x)[..g];
      }
      RepeatAdd(z, m', n');
      assert y == Repeat(z, m' + n');
      m, n := m', m' + n';
    }
  }

  /** When the strings commute and the first is not empty, the answer
      divides both: repeated `|str1| / |r|` times it gives `str1`, and
      `|str2| / |r|` times it gives `str2`. */
  lemma AnswerDivides(str1: string, str2: string)
    requires str1 + str2 == str2 + str1 && |str1| > 0
    ensures var r := GcdPrefix(str1, str2);
      |r| == Gcd(|str1|, |str2|) > 0
      && Repeat(r, |str1| / |r|) == str1 && Repeat(r, |str2| / |r|) == str2
  {
    var g := Gcd(|str1|, |str2|);
    var m, n := CommonPowers(str1, str2);
    var r := GcdPrefix(str1, str2);
    assert r == (str1 + str2)[..g];
    RepeatLength(r, m);
    RepeatLength(r, n);
    DivModUnique(|str1|, g, m, 0);
    DivModUnique(|str2|, g, n, 0);
  }

  /** No common divisor is longer than the answer, and a common divisor
      exists only for strings that commute; so for strings that do not,
      the empty answer is right. */
  lemma AnswerIsLongest(str1: string, str2: string, t: string, p: nat, q: nat)
    requires Repeat(t, p) == str1 && Repeat(t, q) == str2 && |str1| > 0
    ensures str1 + str2 == str2 + str1
    ensures |t| <= |GcdPrefix(str1, str2)|
  {
    RepeatAdd(t, p, q);
    RepeatAdd(t, q, p);
    RepeatLength(t, p);
    RepeatLength(t, q);
    assert p * |t| == |str1| && q * |t| == |str2|;
    GcdIsGreatest(|str1|, |str2|, |t|);
    if |t| > 0 {
      DivisorAtMost(|t|, Gcd(|str1|, |str2|));
    }
  }

  /** The examples worked through beside the solution. */
  lemma Examples()
    ensures GcdPrefix("ABCABC", "ABC") == "ABC"
    ensures GcdPrefix("LEET", "CODE") == ""
    ensures GcdPrefix("ABC", "ABC") == "ABC"
    ensures GcdPrefix("A", "A") == "A"
  {
    assert Gcd(6, 3) == 3 by {
      assert Gcd(6, 3) == Gcd(3, 3) == Gcd(0, 3);
    }
    assert ("ABCABC" + "ABC") == ("ABC" + "ABCABC");
    assert ("LEET" + "CODE")[0] != ("CODE" + "LEET")[0];
    assert Gcd(3, 3) == 3 by {
      assert Gcd(3, 3) == Gcd(0, 3);
    }
  }
}
