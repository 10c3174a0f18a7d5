/** String helpers of the Rust standard library that the program relies on:
    line splitting (`str::lines`, `BufRead::lines`) and `[String]::join`,
    together with `Split`, which undoes a join on a one-character separator
    that occurs in none of the joined words. */
module Text {

  /** Position of the first `c` in `s`, or `|s|` when `s` has none. */
  function IndexOf(s: string, c: char): (i: nat)
    ensures i <= |s|
    ensures i < |s| ==> s[i] == c
    ensures c !in s[..i]
  {
    if s == [] || s[0] == c then 0
    else
      var j := IndexOf(s[1..], c);
      assert s[..j + 1] == [s[0]] + s[1..][..j];
      1 + j
  }

  lemma {:induction false} IndexOfFirst(a: string, c: char, b: string)
    requires c !in a
    ensures IndexOf(a + [c] + b, c) == |a|
  {
    if a != [] {
      assert (a + [c] + b)[1..] == a[1..] + [c] + b;
      IndexOfFirst(a[1..], c, b);
    }
  }

  /** Sum of the lengths (character counts) of `words`. */
  function TotalLength(words: seq<string>): nat
  {
    if words == [] then 0 else |words[0]| + TotalLength(words[1..])
  }

  /** A line with one trailing carriage return removed, if it has one. */
  function StripCR(line: string): string
  {
    if |line| > 0 && line[|line| - 1] == '\r' then line[..|line| - 1] else line
  }

  /** The lines of `text`, as `str::lines` and `BufRead::lines` yield them:
      a line ends at each '\n', and a '\r' just before that '\n' is dropped;
      the last line need not be terminated, and is then kept verbatim; a
      final '\n' does not start an empty last line. */
  function Lines(text: string): (lines: seq<string>)
    ensures forall line :: line in lines ==> '\n' !in line
    decreases |text|
  {
    if text == [] then []
    else
      var i := IndexOf(text, '\n');
      if i == |text| then [text]
      else [StripCR(text[..i])] + Lines(text[i + 1..])
  }

  /** `[String]::join`: the words in order, `sep` between each two
      consecutive ones. */
  function Join(words: seq<string>, sep: string): string
  {
    if words == [] then []
    else if |words| == 1 then words[0]
    else words[0] + sep + Join(words[1..], sep)
  }

  /** The pieces of `s` between occurrences of the character `c`. */
  function Split(s: string, c: char): (pieces: seq<string>)
    ensures |pieces| > 0
    ensures forall p :: p in pieces ==> c !in p
    decreases |s|
  {
    var i := IndexOf(s, c);
    if i == |s| then [s] else [s[..i]] + Split(s[i + 1..], c)
  }

  /** Appending a word adds exactly one separator, between the old last word
      and the new one: the separator never leads or trails. */
  lemma {:induction false} JoinSnoc(words: seq<string>, w: string, sep: string)
    requires words != []
    ensures Join(words + [w], sep) == Join(words, sep) + sep + w
  {
    if |words| > 1 {
      assert (words + [w])[1..] == words[1..] + [w];
      JoinSnoc(words[1..], w, sep);
    }
  }

  /** A join of n > 0 words is as long as the words plus n - 1 separators. */
  lemma {:induction false} JoinLength(words: seq<string>, sep: string)
    requires words != []
    ensures |Join(words, sep)| == TotalLength(words) + (|words| - 1) * |sep|
  {
    if |words| > 1 {
      JoinLength(words[1..], sep);
      assert (|words| - 1) * |sep| == (|words| - 2) * |sep| + |sep|;
    }
  }

  /** Number of occurrences of `c` over all of `words`. */
  function CountIn(words: seq<string>, c: char): nat
  {
    if words == [] then 0 else multiset(words[0])[c] + CountIn(words[1..], c)
  }

  /** Every character of a join of n > 0 words comes from a word or from one
      of the n - 1 separators. */
  lemma {:induction false} JoinCount(words: seq<string>, sep: string, c: char)
    requires words != []
    ensures multiset(Join(words, sep))[c] == CountIn(words, c) + (|words| - 1) * multiset(sep)[c]
  {
    if |words| > 1 {
      var rest := Join(words[1..], sep);
      JoinCount(words[1..], sep, c);
      assert multiset(words[0] + sep + rest) == multiset(words[0]) + multiset(sep) + multiset(rest);
      MulStep(|words| - 1, multiset(sep)[c]);
    }
  }

  /** The induction step of `JoinCount`'s product, kept apart from the
      multiset reasoning there so that neither swamps the other. */
  lemma MulStep(n: nat, k: nat)
    requires n > 0
    ensures n * k == (n - 1) * k + k
  {
  }

  /** Splitting a one-character-separated join at that character gives the
      words back, provided no word contains the separator. */
  lemma {:induction false} SplitJoin(words: seq<string>, c: char)
    requires words != []
    requires forall k :: 0 <= k < |words| ==> c !in words[k]
    ensures Split(Join(words, [c]), c) == words
  {
    if |words| == 1 {
      assert IndexOf(words[0], c) == |words[0]|;
    } else {
      var rest := Join(words[1..], [c]);
      var s := words[0] + [c] + rest;
      IndexOfFirst(words[0], c, rest);
      assert s[..|words[0]|] == words[0];
      assert s[|words[0]| + 1..] == rest;
      SplitJoin(words[1..], c);
    }
  }

  /** Joining the pieces of a split with the split character restores the string. */
  lemma {:induction false} JoinSplit(s: string, c: char)
    ensures Join(Split(s, c), [c]) == s
    decreases |s|
  {
    var i := IndexOf(s, c);
    if i < |s| {
      var rest := Split(s[i + 1..], c);
      assert Split(s, c) == [s[..i]] + rest;
      JoinSplit(s[i + 1..], c);
      assert s == s[..i] + [c] + s[i + 1..];
    }
  }
}
