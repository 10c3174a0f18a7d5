/** The body of `main` without its I/O: load and filter the word list, generate
    `number_passwords` passwords, and lay out the output file's content. */
module Batch {
  import opened Prelude
  import opened Text
  import opened WordList
  import opened Password

  /** The options that reach the core (the output path and the dump flag do not). */
  datatype Config = Config(
    numberPasswords: u16,
    passwordWordCount: u8,
    separator: string,
    wordMinLength: nat,
    wordMaxLength: nat)

  /** Where the words come from: the list built into the program, or the text
      of a user-supplied word-list file. */
  datatype WordSource = InternalList(text: string) | WordlistFile(text: string)

  /** One run of oracle answers per password, each as long as a password is
      in words and in range whenever the word list is not empty. */
  predicate ValidDraws(draws: seq<seq<nat>>, numberPasswords: nat, wordsInPassword: nat, wordlistLength: nat)
  {
    && |draws| == numberPasswords
    && forall j :: 0 <= j < |draws| ==>
         |draws[j]| == wordsInPassword && (wordlistLength > 0 ==> InRange(draws[j], wordlistLength))
  }

  /** The passwords that the draws produce, in generation order. */
  function Passwords(wordlist: seq<string>, draws: seq<seq<nat>>, separator: string): seq<string>
    requires forall j :: 0 <= j < |draws| ==> InRange(draws[j], |wordlist|)
  {
    seq(|draws|, j requires 0 <= j < |draws| => PasswordOf(wordlist, draws[j], separator))
  }

  /** The loop of `main` that pushes `number_passwords` passwords. It fails
      exactly when some password needs a word and the list is empty;
      otherwise it yields exactly `number_passwords` passwords, the j-th one
      made from the j-th run of draws. */
  method GeneratePasswords(wordlist: seq<string>, numberPasswords: u16, wordsInPassword: u8,
                           separator: string, draws: seq<seq<nat>>)
    returns (r: Result<seq<string>>)
    requires ValidDraws(draws, numberPasswords, wordsInPassword, |wordlist|)
    ensures r.Err? <==> numberPasswords > 0 && wordsInPassword > 0 && wordlist == []
    ensures r.Ok? ==> |r.value| == numberPasswords
    ensures r.Ok? ==> (forall j :: 0 <= j < |draws| ==> InRange(draws[j], |wordlist|))
                      && r.value == Passwords(wordlist, draws, separator)
  {
    var passwords: seq<string> := [];
    for i := 0 to numberPasswords
      invariant i > 0 && wordsInPassword > 0 ==> wordlist != []
      invariant forall j :: 0 <= j < i ==> InRange(draws[j], |wordlist|)
      invariant passwords == Passwords(wordlist, draws[..i], separator)
    {
      var password := GeneratePassword(wordlist, wordsInPassword, separator, draws[i]);
      if password.Err? {
        return Err(password.error);
      }
      passwords := passwords + [password.value];
    }
    assert draws[..numberPasswords] == draws;
    r := Ok(passwords);
  }

  /** The output file's content: every password followed by "\n", in order. */
  function OutputContent(passwords: seq<string>): string
  {
    if passwords == [] then [] else passwords[0] + "\n" + OutputContent(passwords[1..])
  }

  /** The content holds the passwords' characters plus one newline per password. */
  lemma {:induction false} OutputContentLength(passwords: seq<string>)
    ensures |OutputContent(passwords)| == TotalLength(passwords) + |passwords|
  {
    if passwords != [] {
      OutputContentLength(passwords[1..]);
    }
  }

  /** Reading the content back line by line gives the passwords, in
      generation order, as long as no password holds a newline or ends with
      a carriage return. */
  lemma {:induction false} OutputContentReadsBack(passwords: seq<string>)
    requires forall j :: 0 <= j < |passwords| ==> '\n' !in passwords[j]
    requires forall j :: 0 <= j < |passwords| ==> StripCR(passwords[j]) == passwords[j]
    ensures Lines(OutputContent(passwords)) == passwords
  {
    if passwords != [] {
      var p := passwords[0];
      var rest := OutputContent(passwords[1..]);
      IndexOfFirst(p, '\n', rest);
      assert (p + "\n" + rest)[..|p|] == p;
      assert (p + "\n" + rest)[|p| + 1..] == rest;
      OutputContentReadsBack(passwords[1..]);
    }
  }

  /** The filtered word list of a source. */
  function LoadWordList(source: WordSource, config: Config): seq<string>
  {
    GetWordList(Lines(source.text), config.wordMinLength, config.wordMaxLength)
  }

  /** `main` from loading the words to the content it writes. Both word
      sources are filtered to the same list, the run fails exactly when a
      password needs a word and none passed the filter, and otherwise the
      content is the generated passwords, one per line. */
  method Run(source: WordSource, config: Config, draws: seq<seq<nat>>) returns (r: Result<string>)
    requires ValidDraws(draws, config.numberPasswords, config.passwordWordCount, |LoadWordList(source, config)|)
    ensures r.Err? <==> config.numberPasswords > 0 && config.passwordWordCount > 0
                        && LoadWordList(source, config) == []
    ensures r.Ok? ==> (forall j :: 0 <= j < |draws| ==> InRange(draws[j], |LoadWordList(source, config)|))
                      && r.value == OutputContent(Passwords(LoadWordList(source, config), draws, config.separator))
  {
    var lines := Lines(source.text);
    var wordlist: seq<string>;
    match source {
      case InternalList(_) =>
        wordlist := FilterEmbedded(lines, config.wordMinLength, config.wordMaxLength);
      case WordlistFile(_) =>
        wordlist := GetWordList(lines, config.wordMinLength, config.wordMaxLength);
    }
    var passwords := GeneratePasswords(wordlist, config.numberPasswords, config.passwordWordCount,
                                       config.separator, draws);
    if passwords.Err? {
      return Err(passwords.error);
    }
    r := Ok(OutputContent(passwords.value));
  }
}
