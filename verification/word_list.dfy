/** The word-list length filter. A candidate line is kept when its length,
    counted in characters (Unicode scalar values), lies between the minimum
    and the maximum word length, both inclusive. The program filters in two
    places: a push loop over the internal list (`FilterEmbedded`) and an
    iterator pipeline over a user-supplied file (`GetWordList`). */
module WordList {

  /** The filter condition: `count >= word_min_length && count <= word_max_length`. */
  predicate InBounds(line: string, minLength: nat, maxLength: nat)
  {
    |line| >= minLength && |line| <= maxLength
  }

  /** `get_word_list`: `lines().filter(..).collect()`, which keeps the lines
      that pass the filter, in their input order. */
  function GetWordList(lines: seq<string>, minLength: nat, maxLength: nat): (words: seq<string>)
    ensures |words| <= |lines|
    ensures forall k :: 0 <= k < |words| ==> InBounds(words[k], minLength, maxLength)
  {
    if lines == [] then []
    else if InBounds(lines[0], minLength, maxLength) then [lines[0]] + GetWordList(lines[1..], minLength, maxLength)
    else GetWordList(lines[1..], minLength, maxLength)
  }

  /** Filtering one more line appends it when it passes and nothing otherwise:
      the filter works in input order. */
  lemma {:induction false} GetWordListSnoc(lines: seq<string>, line: string, minLength: nat, maxLength: nat)
    ensures GetWordList(lines + [line], minLength, maxLength)
         == GetWordList(lines, minLength, maxLength) + (if InBounds(line, minLength, maxLength) then [line] else [])
  {
    if lines != [] {
      assert (lines + [line])[1..] == lines[1..] + [line];
      GetWordListSnoc(lines[1..], line, minLength, maxLength);
    }
  }

  /** The loop over the internal word list: push every line within the
      bounds onto an initially empty list. It gives the same words, in the
      same order, as the iterator pipeline of `get_word_list`. */
  method FilterEmbedded(lines: seq<string>, minLength: nat, maxLength: nat) returns (wordlist: seq<string>)
    ensures wordlist == GetWordList(lines, minLength, maxLength)
  {
    wordlist := [];
    for i := 0 to |lines|
      invariant wordlist == GetWordList(lines[..i], minLength, maxLength)
    {
      var line := lines[i];
      if |line| >= minLength && |line| <= maxLength {
        wordlist := wordlist + [line];
      }
      GetWordListSnoc(lines[..i], line, minLength, maxLength);
      assert lines[..i + 1] == lines[..i] + [line];
    }
    assert lines[..|lines|] == lines;
  }

  /** Each word occurs in the filtered list as often as in the input when it
      is within the bounds, and not at all otherwise: no deduplication, no
      other word. */
  lemma {:induction false} GetWordListCount(lines: seq<string>, minLength: nat, maxLength: nat, w: string)
    ensures multiset(GetWordList(lines, minLength, maxLength))[w]
         == if InBounds(w, minLength, maxLength) then multiset(lines)[w] else 0
  {
    if lines != [] {
      GetWordListCount(lines[1..], minLength, maxLength, w);
      assert lines == [lines[0]] + lines[1..];
    }
  }

  /** A word is in the filtered list exactly when it is an input line within
      the bounds. */
  lemma {:induction false} GetWordListMembers(lines: seq<string>, minLength: nat, maxLength: nat, w: string)
    ensures w in GetWordList(lines, minLength, maxLength) <==> w in lines && InBounds(w, minLength, maxLength)
  {
    GetWordListCount(lines, minLength, maxLength, w);
  }

  /** The positions, counted from `base`, of the lines the filter keeps. */
  function KeptPositions(lines: seq<string>, minLength: nat, maxLength: nat, base: nat): seq<nat>
  {
    if lines == [] then []
    else (if InBounds(lines[0], minLength, maxLength) then [base] else [])
         + KeptPositions(lines[1..], minLength, maxLength, base + 1)
  }

  /** The k-th kept word is the line at the k-th kept position. */
  lemma {:induction false} KeptPositionsSelect(lines: seq<string>, minLength: nat, maxLength: nat, base: nat)
    ensures var words := GetWordList(lines, minLength, maxLength);
            var positions := KeptPositions(lines, minLength, maxLength, base);
            && |positions| == |words|
            && forall k :: 0 <= k < |words| ==>
                 base <= positions[k] < base + |lines| && words[k] == lines[positions[k] - base]
  {
    if lines != [] {
      var words := GetWordList(lines[1..], minLength, maxLength);
      var positions := KeptPositions(lines[1..], minLength, maxLength, base + 1);
      KeptPositionsSelect(lines[1..], minLength, maxLength, base + 1);
      forall k | 0 <= k < |words|
        ensures lines[1..][positions[k] - (base + 1)] == lines[positions[k] - base]
      {
      }
      if InBounds(lines[0], minLength, maxLength) {
        assert GetWordList(lines, minLength, maxLength) == [lines[0]] + words;
        assert KeptPositions(lines, minLength, maxLength, base) == [base] + positions;
      } else {
        assert GetWordList(lines, minLength, maxLength) == words;
        assert KeptPositions(lines, minLength, maxLength, base) == positions;
      }
    }
  }

  /** Kept positions strictly increase: the filter never reorders. */
  lemma {:induction false} KeptPositionsIncrease(lines: seq<string>, minLength: nat, maxLength: nat, base: nat)
    ensures var positions := KeptPositions(lines, minLength, maxLength, base);
            forall k, l :: 0 <= k < l < |positions| ==> positions[k] < positions[l]
  {
    if lines != [] {
      KeptPositionsIncrease(lines[1..], minLength, maxLength, base + 1);
      KeptPositionsSelect(lines[1..], minLength, maxLength, base + 1);
    }
  }

  /** Every position counted from `base` is at least `base`. */
  lemma {:induction false} KeptPositionsAbove(lines: seq<string>, minLength: nat, maxLength: nat, base: nat)
    ensures forall p :: p in KeptPositions(lines, minLength, maxLength, base) ==> base <= p
  {
    if lines != [] {
      KeptPositionsAbove(lines[1..], minLength, maxLength, base + 1);
    }
  }

  /** A position is kept exactly when its line is within the bounds. */
  lemma {:induction false} KeptPositionsExact(lines: seq<string>, minLength: nat, maxLength: nat, base: nat)
    ensures var positions := KeptPositions(lines, minLength, maxLength, base);
            forall j :: 0 <= j < |lines| ==> (base + j in positions <==> InBounds(lines[j], minLength, maxLength))
  {
    if lines != [] {
      var rest := KeptPositions(lines[1..], minLength, maxLength, base + 1);
      var positions := KeptPositions(lines, minLength, maxLength, base);
      KeptPositionsExact(lines[1..], minLength, maxLength, base + 1);
      KeptPositionsAbove(lines[1..], minLength, maxLength, base + 1);
      assert positions == (if InBounds(lines[0], minLength, maxLength) then [base] else []) + rest;
      forall j | 1 <= j < |lines|
        ensures base + j in positions <==> InBounds(lines[j], minLength, maxLength)
      {
        assert lines[1..][j - 1] == lines[j];
        assert base + j == (base + 1) + (j - 1);
      }
    }
  }

  /** The filtered list is the subsequence of the input made of exactly the
      lines within the bounds, in their original relative order. */
  lemma GetWordListSelectsInOrder(lines: seq<string>, minLength: nat, maxLength: nat)
    ensures var words := GetWordList(lines, minLength, maxLength);
            var positions := KeptPositions(lines, minLength, maxLength, 0);
            && |positions| == |words|
            && (forall k :: 0 <= k < |words| ==> positions[k] < |lines| && words[k] == lines[positions[k]])
            && (forall k, l :: 0 <= k < l < |positions| ==> positions[k] < positions[l])
            && (forall j :: 0 <= j < |lines| ==> (j in positions <==> InBounds(lines[j], minLength, maxLength)))
  {
    KeptPositionsSelect(lines, minLength, maxLength, 0);
    KeptPositionsIncrease(lines, minLength, maxLength, 0);
    KeptPositionsExact(lines, minLength, maxLength, 0);
  }

  /** Bounds that cross (minimum above maximum) keep nothing. */
  lemma {:induction false} CrossedBoundsKeepNothing(lines: seq<string>, minLength: nat, maxLength: nat)
    requires minLength > maxLength
    ensures GetWordList(lines, minLength, maxLength) == []
  {
    if lines != [] {
      CrossedBoundsKeepNothing(lines[1..], minLength, maxLength);
    }
  }
}
