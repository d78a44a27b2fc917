/** Merge Strings Alternately (LeetCode 1768), in its two versions: three
    index loops growing a string with `+=`, and one index loop growing a
    list of pieces that is joined at the end. Both take the characters of
    the two words in turn until the shorter one runs out, then the rest of
    the longer one. */
module MergeStrings {
  import opened Text

  /** The merge, one character from each word at a time. */
  function Merged(word1: string, word2: string): (r: string)
    ensures |r| == |word1| + |word2|
  {
    if word1 == [] then word2
    else if word2 == [] then word1
    else [word1[0], word2[0]] + Merged(word1[1..], word2[1..])
  }

  /** For every k below the shorter length, positions 2k and 2k + 1 of the
      merge hold the k-th character of each word. */
  lemma {:induction false} MergedAt(word1: string, word2: string, k: nat)
    requires k < Min(|word1|, |word2|)
    ensures Merged(word1, word2)[2 * k] == word1[k]
    ensures Merged(word1, word2)[2 * k + 1] == word2[k]
  {
    if k > 0 {
      MergedAt(word1[1..], word2[1..], k - 1);
    }
  }

  /** Dropping the first k pairs of the merge leaves the merge of what
      follows them. */
  lemma {:induction false} MergedDrop(word1: string, word2: string, k: nat)
    requires k <= Min(|word1|, |word2|)
    ensures Merged(word1, word2)[2 * k..] == Merged(word1[k..], word2[k..])
  {
    if k > 0 {
      var rest1, rest2 := word1[1..], word2[1..];
      MergedDrop(rest1, rest2, k - 1);
      assert Merged(word1, word2)[2 * k..] == Merged(rest1, rest2)[2 * (k - 1)..];
      assert rest1[k - 1..] == word1[k..];
      assert rest2[k - 1..] == word2[k..];
    }
  }

  /** After the 2m alternated characters, m the shorter length, the merge
      ends with the rest of the first word and then the rest of the second,
      and at most one of those rests is non-empty. */
  lemma MergedTail(word1: string, word2: string)
    ensures var m := Min(|word1|, |word2|);
      Merged(word1, word2)[2 * m..] == word1[m..] + word2[m..]
      && (word1[m..] == [] || word2[m..] == [])
  {
    var m := Min(|word1|, |word2|);
    MergedDrop(word1, word2, m);
    assert word1[m..] == [] || word2[m..] == [];
  }

  /** Past the alternated part, the merge holds the first word's rest ... */
  lemma FirstRestAt(word1: string, word2: string, i: nat)
    requires Min(|word1|, |word2|) <= i < |word1|
    ensures Merged(word1, word2)[Min(|word1|, |word2|) + i] == word1[i]
  {
    var m := Min(|word1|, |word2|);
    MergedTail(word1, word2);
    assert Merged(word1, word2)[m + i] == Merged(word1, word2)[2 * m..][i - m];
  }

  /** ... and then the second word's rest. */
  lemma SecondRestAt(word1: string, word2: string, j: nat)
    requires Min(|word1|, |word2|) <= j < |word2|
    ensures Merged(word1, word2)[|word1| + j] == word2[j]
  {
    var m := Min(|word1|, |word2|);
    MergedTail(word1, word2);
    assert Merged(word1, word2)[|word1| + j] == Merged(word1, word2)[2 * m..][|word1| - m + j - m];
  }

  /** The first version: alternate while both words have characters left,
      then copy what is left of the first word, then of the second. */
  method MergeAlternately(word1: string, word2: string) returns (result: string)
    ensures result == Merged(word1, word2)
  {
    ghost var merged := Merged(word1, word2);
    ghost var m := Min(|word1|, |word2|);
    result := "";
    var i, j := 0, 0;
    while i < |word1| && j < |word2|
      invariant i == j <= m
      invariant result == merged[..i + j]
    {
      MergedAt(word1, word2, i);
      result := result + [word1[i]];
      result := result + [word2[j]];
      i, j := i + 1, j + 1;
    }
    while i < |word1|
      invariant m <= i <= |word1| && j == m
      invariant result == merged[..i + j]
    {
      FirstRestAt(word1, word2, i);
      result := result + [word1[i]];
      i := i + 1;
    }
    while j < |word2|
      invariant m <= j <= |word2| && i == |word1|
      invariant result == merged[..i + j]
    {
      SecondRestAt(word1, word2, j);
      result := result + [word2[j]];
      j := j + 1;
    }
  }

  /** The pieces of the second version, joined. */
  function Join(pieces: seq<string>): (r: string)
    ensures |pieces| == 0 ==> r == []
  {
    if pieces == [] then [] else Join(pieces[..|pieces| - 1]) + pieces[|pieces| - 1]
  }

  lemma JoinAppend(pieces: seq<string>, piece: string)
    ensures Join(pieces + [piece]) == Join(pieces) + piece
  {
    assert (pieces + [piece])[..|pieces|] == pieces;
  }

  /** The second version: one loop appending a character of each word in
      turn, then the rest of whichever word is longer, joined. */
  method MergeAlternatelyPieces(word1: string, word2: string) returns (result: string)
    ensures result == Merged(word1, word2)
  {
    ghost var whole := Merged(word1, word2);
    var merged: seq<string> := [];
    var i, j := 0, 0;
    while i < |word1| && j < |word2|
      invariant i == j <= Min(|word1|, |word2|)
      invariant Join(merged) == whole[..i + j]
    {
      MergedAt(word1, word2, i);
      JoinAppend(merged, [word1[i]]);
      merged := merged + [[word1[i]]];
      JoinAppend(merged, [word2[j]]);
      merged := merged + [[word2[j]]];
      i, j := i + 1, j + 1;
    }
    MergedTail(word1, word2);
    assert i == j == Min(|word1|, |word2|);
    assert whole == whole[..i + j] + whole[i + j..];
    assert whole == Join(merged) + word1[i..] + word2[j..];
    if i < |word1| {
      JoinAppend(merged, word1[i..]);
      merged := merged + [word1[i..]];
    }
    if j < |word2| {
      JoinAppend(merged, word2[j..]);
      merged := merged + [word2[j..]];
    }
    result := Join(merged);
  }

  /** The worked example. */
  lemma MergedExample()
    ensures Merged("abc", "pqr") == "apbqcr"
  {
    assert Merged("c", "r") == "cr";
    assert "bc"[1..] == "c" && "qr"[1..] == "r";
    assert Merged("bc", "qr") == "bqcr";
    assert "abc"[1..] == "bc" && "pqr"[1..] == "qr";
  }
}
