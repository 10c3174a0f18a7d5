/** `generate_password`: draw `words_in_password` words from the word list,
    independently and with replacement, and join them with the separator.
    The random generator is an oracle: `draws` holds the indices it answers
    to the successive `gen_range(0..wordlist_length)` calls. */
module Password {
  import opened Prelude
  import opened Text

  /** The oracle's answers all lie in `[0, bound)`. */
  predicate InRange(draws: seq<nat>, bound: nat)
  {
    forall k :: 0 <= k < |draws| ==> draws[k] < bound
  }

  /** The words that `draws` selects, in draw order. */
  function Pick(wordlist: seq<string>, draws: seq<nat>): seq<string>
    requires InRange(draws, |wordlist|)
  {
    seq(|draws|, k requires 0 <= k < |draws| => wordlist[draws[k]])
  }

  /** The password that a run of draws produces. */
  function PasswordOf(wordlist: seq<string>, draws: seq<nat>, separator: string): string
    requires InRange(draws, |wordlist|)
  {
    Join(Pick(wordlist, draws), separator)
  }

  /** The loop of `generate_password`. It fails (the panic of
      `gen_range(0..0)`) exactly when a word is needed but the list is
      empty; with no word to draw it returns the empty password even for an
      empty list. Otherwise the password is the drawn words joined in draw
      order. */
  method GeneratePassword(wordlist: seq<string>, wordsInPassword: u8, separator: string, draws: seq<nat>)
    returns (r: Result<string>)
    requires |draws| == wordsInPassword
    requires |wordlist| > 0 ==> InRange(draws, |wordlist|)
    ensures r.Err? <==> wordsInPassword > 0 && |wordlist| == 0
    ensures wordsInPassword == 0 ==> r == Ok([])
    ensures r.Ok? ==> InRange(draws, |wordlist|) && r.value == PasswordOf(wordlist, draws, separator)
  {
    var wordlistLength := |wordlist|;
    var words: seq<string> := [];
    for i := 0 to wordsInPassword
      invariant wordlistLength == 0 ==> i == 0
      invariant InRange(draws[..i], wordlistLength)
      invariant words == Pick(wordlist, draws[..i])
    {
      if wordlistLength == 0 {
        return Err(EmptyWordList);
      }
      var index := draws[i];
      words := words + [wordlist[index]];
    }
    assert draws[..wordsInPassword] == draws;
    r := Ok(Join(words, separator));
  }

  /** For n > 0 draws the password is the first n - 1 words' password, the
      separator, and the last drawn word: words appear in draw order and the
      separator only between two of them. */
  lemma PasswordSnoc(wordlist: seq<string>, draws: seq<nat>, index: nat, separator: string)
    requires InRange(draws, |wordlist|) && draws != [] && index < |wordlist|
    ensures InRange(draws + [index], |wordlist|)
    ensures PasswordOf(wordlist, draws + [index], separator)
         == PasswordOf(wordlist, draws, separator) + separator + wordlist[index]
  {
    assert Pick(wordlist, draws + [index]) == Pick(wordlist, draws) + [wordlist[index]];
    JoinSnoc(Pick(wordlist, draws), wordlist[index], separator);
  }

  /** A password of n > 0 words is as long as its words plus n - 1 separators. */
  lemma PasswordLength(wordlist: seq<string>, draws: seq<nat>, separator: string)
    requires InRange(draws, |wordlist|) && draws != []
    ensures |PasswordOf(wordlist, draws, separator)|
         == TotalLength(Pick(wordlist, draws)) + (|draws| - 1) * |separator|
  {
    JoinLength(Pick(wordlist, draws), separator);
  }

  /** With a one-character separator that occurs in no word, a password of
      n > 0 words holds exactly n - 1 separators. */
  lemma SeparatorCount(wordlist: seq<string>, draws: seq<nat>, c: char)
    requires InRange(draws, |wordlist|) && draws != []
    requires forall k :: 0 <= k < |wordlist| ==> c !in wordlist[k]
    ensures multiset(PasswordOf(wordlist, draws, [c]))[c] == |draws| - 1
  {
    var words := Pick(wordlist, draws);
    JoinCount(words, [c], c);
    NoOccurrences(words, c);
  }

  lemma {:induction false} NoOccurrences(words: seq<string>, c: char)
    requires forall k :: 0 <= k < |words| ==> c !in words[k]
    ensures CountIn(words, c) == 0
  {
    if words != [] {
      NoOccurrences(words[1..], c);
    }
  }

  /** With a one-character separator that occurs in no word, splitting a
      password of n > 0 words at the separator recovers the drawn words in
      draw order: the password determines its draws' words. */
  lemma PasswordSplits(wordlist: seq<string>, draws: seq<nat>, c: char)
    requires InRange(draws, |wordlist|) && draws != []
    requires forall k :: 0 <= k < |wordlist| ==> c !in wordlist[k]
    ensures Split(PasswordOf(wordlist, draws, [c]), c) == Pick(wordlist, draws)
  {
    SplitJoin(Pick(wordlist, draws), c);
  }

  /** Three draws from ["cat", "dog", "sun"] joined with "-" give a password
      that splits at '-' into three words of that list. */
  lemma ThreeWordScenario(draws: seq<nat>)
    requires |draws| == 3 && InRange(draws, 3)
    ensures var pieces := Split(PasswordOf(["cat", "dog", "sun"], draws, "-"), '-');
            |pieces| == 3 && forall k :: 0 <= k < 3 ==> pieces[k] in ["cat", "dog", "sun"]
  {
    PasswordSplits(["cat", "dog", "sun"], draws, '-');
  }
}
