# passwordgen core, modelled in Dafny

passwordgen builds passphrase-style passwords ("correct-horse-battery-staple"). It loads a word
list, keeps the words whose length in characters lies within a minimum and a maximum bound, draws
words at random with replacement, joins them with a separator, and writes one password per line to
an output file. This project models that logic from `src/main.rs` and proves its properties.

- `prelude.dfy` (`Prelude`): the Rust widths `u8` (`password_word_count`) and `u16`
  (`number_passwords`) as subset types, and the failure outcome `Err(EmptyWordList)`. That outcome
  stands for the panic of `gen_range(0..0)`.
- `text.dfy` (`Text`): standard-library string behaviour the program relies on. `Lines` models
  `str::lines` and `BufRead::lines`. `Join` models `[String]::join`. `Split` cuts a string at a
  one-character separator. Joining the pieces of any split restores the string. Splitting a join
  gives the words back when the list is non-empty and no word contains the separator.
- `word_list.dfy` (`WordList`): the length filter, implemented twice. `GetWordList` models the
  iterator pipeline of `get_word_list`. `FilterEmbedded` models the push loop over the internal
  list and is proved equal to `GetWordList`.
- `password.dfy` (`Password`): `generate_password`. Randomness is an oracle: `draws` holds the
  answers to the successive `gen_range(0..wordlist_length)` calls. Each answer must lie in range
  whenever the word list is non-empty.
- `batch.dfy` (`Batch`): the body of `main` without I/O. This covers the choice of word source,
  the loop that generates `number_passwords` passwords, and the output content, in which every
  password is followed by `"\n"`.

Word length is `|w|` on Dafny strings, whose characters are Unicode scalar values. This matches
`char_indices().count()`.

How the program handles two edge cases, and how the model follows it:
- An empty line is a candidate word like any other. The program keeps it whenever the minimum
  length is 0, and so does `GetWordList`.
- The program never checks for an empty list before drawing. `gen_range(0..0)` panics on the first
  draw, and only when a password needs a word. `GeneratePassword` fails at exactly that point, so
  zero-word passwords succeed even on an empty list.

## Model

| member | source | states |
|---|---|---|
| `Text.Lines` | src/main.rs:63 | no line that the splitter yields contains a newline |
| `Text.JoinSnoc` | src/main.rs:122 | joining one more word adds one separator and then the word, so the separator never leads or trails |
| `Text.JoinLength` | src/main.rs:122 | a join of n > 0 words has length equal to the words' total length plus (n-1) separator lengths |
| `Text.JoinCount` | src/main.rs:122 | each character occurs in a join as often as in the words plus n-1 times its count in the separator |
| `Text.SplitJoin` | src/main.rs:122 | splitting a join at a one-character separator that occurs in no word returns the words |
| `Text.JoinSplit` | src/main.rs:122 | joining the pieces of a split with the split character restores the string (for every string; the converse, `SplitJoin`, needs a non-empty list and a separator in no word) |
| `WordList.GetWordList` | src/main.rs:100-110 | the filtered list is no longer than the input, and every kept word is within the length bounds |
| `WordList.GetWordListSnoc` | src/main.rs:103-109 | filtering one more line appends it exactly when it is within bounds (input order) |
| `WordList.FilterEmbedded` | src/main.rs:63-69 | the push loop over the internal list yields the same list as the iterator pipeline of `get_word_list` |
| `WordList.GetWordListCount` | src/main.rs:105-109 | each word occurs as often as in the input when within bounds and never otherwise (no deduplication, nothing added) |
| `WordList.GetWordListMembers` | src/main.rs:105-109 | a word is in the list iff it is an input line whose character count lies in [min, max] |
| `WordList.KeptPositionsSelect` | src/main.rs:103-109 | the k-th kept word is the input line at the k-th kept position |
| `WordList.KeptPositionsIncrease` | src/main.rs:103-109 | kept positions strictly increase |
| `WordList.KeptPositionsExact` | src/main.rs:105-108 | a position is kept iff its line is within bounds |
| `WordList.GetWordListSelectsInOrder` | src/main.rs:103-109 | the list is the subsequence of the input made of exactly the in-bounds lines, in their original order |
| `WordList.CrossedBoundsKeepNothing` | src/main.rs:64-65 | a minimum above the maximum keeps no word |
| `Password.GeneratePassword` | src/main.rs:112-123 | fails iff a word is needed and the list is empty; zero words gives the empty password; otherwise every draw is in range and the result is the drawn words joined in draw order |
| `Password.PasswordSnoc` | src/main.rs:117-122 | one more draw appends the separator and that drawn word |
| `Password.PasswordLength` | src/main.rs:117-122 | a password of n > 0 words has length equal to the drawn words' lengths plus (n-1) separator lengths |
| `Password.SeparatorCount` | src/main.rs:122 | with a one-character separator occurring in no word, a password of n > 0 words holds exactly n-1 separators |
| `Password.PasswordSplits` | src/main.rs:117-122 | with such a separator, splitting the password recovers the drawn words in draw order |
| `Password.ThreeWordScenario` | src/main.rs:112-123 | three draws from ["cat", "dog", "sun"] with "-" split into three words of that list |
| `Batch.GeneratePasswords` | src/main.rs:77-84 | fails iff passwords need words and the list is empty; otherwise yields exactly `number_passwords` passwords, the j-th from the j-th run of draws |
| `Batch.OutputContentLength` | src/main.rs:87-89 | the content is the passwords' characters plus one newline per password |
| `Batch.OutputContentReadsBack` | src/main.rs:87-89 | reading the content back line by line gives the passwords in generation order (no newline or trailing carriage return in them) |
| `Batch.Run` | src/main.rs:49-89 | both word sources filter to the same list; the run fails iff a password needs a word and none passed the filter; otherwise the content lists the generated passwords one per line |

## Left out

- Command-line parsing with `clap` and its defaults (src/main.rs:10-45, 48). `Config` carries the parsed values.
- All file and console I/O: opening and reading the word-list file, creating and writing the output file, and the messages printed. The `.expect` panics on a missing file or an undecodable line are left out too. A word source is given as its decoded text, and the output as the content string `OutputContent`.
- The dump-internal-words mode and `process::exit` (src/main.rs:54-61). They write a file and end the process.
- The contents of the word list built into the program. It is build-time data, so `InternalList` takes any text.
- The quality and uniformity of `rand::thread_rng`. The generator is an oracle whose answers are only assumed to lie in range.
- Text.Lines: written out from the documented behaviour of `str::lines` and `BufRead::lines`, not verified against the Rust library. It follows current Rust: a lone '\r' ending an unterminated last line is kept, which some older releases stripped.
- `usize` lengths and bounds are unbounded `nat`s. No realistic word list comes near the `usize` limit.
- Password.SeparatorCount: counts single characters, so it covers one-character separators (such as the default "-") but not longer ones, whose occurrences can straddle word boundaries.
- Password.PasswordSplits: states the split round trip only for one-character separators, for the same reason.
