# hist-scraper, modelled in Dafny

`hist-scraper` drops lines from a shell-history file (the *target*). It drops
each line that equals a command listed in a second file (the *query*). Each
query line is columnar text, and its command is found with the `stringfix!`
macro. This project models three pieces of `src/hist-scraper.rs`:

- the five arms of `stringfix!`, which slice a line at a separator;
- the pipeline in `main`. It splits the target text at newlines and trims each
  line. It derives the query keys: skip the header line unless `no_header`,
  drop empty lines, take the default suffix at a space, trim. It filters the
  target lines with a loop that keeps the first `skip_n` lines unconditionally,
  and it joins what is kept with newlines;
- the macro's unit tests, stated as lemmas.

Files:

- `text.dfy` (module `Text`) holds the string primitives the Rust code calls:
  `find`, `split`, `join` and `trim` for a single-character pattern, over
  `seq<char>`.
- `stringfix.dfy` (module `Stringfix`) holds the macro arms.
- `stringfix_tests.dfy` (module `StringfixTests`) holds the tests.
- `hist_scraper.dfy` (module `HistScraper`) holds the key derivation, the
  filter loop as a method, and the whole pipeline.

The two arms that index out of range panic in Rust. Here they return
`Option`, with `None` standing for the panic. The filter loop is a method with
the same nested loop, `add_flag` and early `break`. It is proved equal to the
function `Filtered`, and the properties of the filter are lemmas about
`Filtered`.

On line 166, the test `stringfix!(INPUT, " ", 1, slice="suffix")` is matched
by the first macro arm, because the literal `1,` is optional in that arm's
pattern. It therefore tests the default suffix, not "suffix from column 1".
The model follows the macro as written. `Stringfix.SuffixFromOne` shows that
the two agree whenever the separator occurs. `Stringfix.SuffixFromOneWithoutSeparator`
shows that they differ on a line of two or more characters without the
separator, such as "ls".

The default suffix follows the code, `find(sep).unwrap_or(0) + 1`: a line
without the separator loses its first character. It does not come back whole.

## Model

| member | source | states |
|---|---|---|
| Text.Find | src/hist-scraper.rs:68 | `find` gives nothing exactly when the character is absent; otherwise the index of its first occurrence |
| Text.Split | src/hist-scraper.rs:105 | `split` gives one more piece than there are separators, and no piece holds the separator |
| Text.JoinSplit | src/hist-scraper.rs:91-92 | joining the pieces of a split on the same separator gives the input back |
| Text.FindAfter | src/hist-scraper.rs:68 | in `a`, separator, `b`, with no separator in `a`, the first separator is the one right after `a` |
| Text.Join | src/hist-scraper.rs:150 | `join`: no contract of its own; JoinSplit, SplitJoin, JoinAppend and JoinOccurrences specify it |
| Text.SplitJoin | src/hist-scraper.rs:150 | splitting a join of separator-free pieces gives the pieces back (non-empty list) |
| Text.JoinAppend | src/hist-scraper.rs:86 | joining a concatenation of two piece lists (both non-empty) is joining each, with one separator between |
| Text.JoinOccurrences | src/hist-scraper.rs:86 | joining n separator-free pieces puts in exactly n - 1 separators |
| Text.IsWhitespace | src/hist-scraper.rs:106 | `char::is_whitespace`, the Unicode White_Space characters; the trim lemmas are stated with it |
| Text.TrimStart | src/hist-scraper.rs:106 | `trim_start` gives a suffix of the input that does not start with whitespace |
| Text.TrimEnd | src/hist-scraper.rs:193 | `trim_end` gives a prefix of the input that does not end with whitespace |
| Text.TrimStartDropsWhitespace | src/hist-scraper.rs:106 | every character `trim_start` drops is whitespace |
| Text.TrimEndDropsWhitespace | src/hist-scraper.rs:193 | every character `trim_end` drops is whitespace |
| Text.Trim | src/hist-scraper.rs:106 | `trim` gives a piece of the input that starts right after the part `trim_start` removes |
| Text.TrimEnds | src/hist-scraper.rs:106 | what `trim` gives neither starts nor ends with whitespace |
| Text.TrimDropsWhitespace | src/hist-scraper.rs:106 | what `trim` drops at both ends is whitespace |
| Text.TrimIdempotent | src/hist-scraper.rs:115 | trimming twice is trimming once |
| Stringfix.Suffix | src/hist-scraper.rs:67-70 | with a separator, prefix + separator + result is the input; without one, the input minus its first character |
| Stringfix.Prefix | src/hist-scraper.rs:73-76 | a prefix of the input that holds no separator and stops at a separator or at the end; the whole input when there is no separator |
| Stringfix.Unit | src/hist-scraper.rs:79-81 | defined exactly when `col` is at most the number of separators; the column holds no separator; column 0 is the prefix |
| Stringfix.PrefixThrough | src/hist-scraper.rs:84-87 | a prefix of the input with min(col, separators) separators that stops at a separator or at the end; the whole input when `col` reaches the last column |
| Stringfix.LeadingColumns | src/hist-scraper.rs:85-86 | joining the first k columns gives a prefix of the line with k - 1 separators; it is followed by a separator when k is short of all the columns and is the whole line otherwise |
| Stringfix.SuffixFrom | src/hist-scraper.rs:90-93 | defined exactly when `col` is at most the number of columns; column 0 gives the input, one past the last gives the empty string, otherwise prefix through col - 1 + separator + result is the input |
| Stringfix.TrailingColumns | src/hist-scraper.rs:91-92 | the columns from 0 on join to the line; from a column strictly inside, the first columns, a separator and the rest join to the line |
| Stringfix.SplitHead | src/hist-scraper.rs:79-81 | column 0 is the prefix; when the line holds a separator, the remaining columns are the columns of the default suffix |
| Stringfix.PrefixThroughStep | src/hist-scraper.rs:84-87 | the prefix through `col` is the prefix through `col - 1`, a separator and column `col` |
| Stringfix.SuffixFromOne | src/hist-scraper.rs:161-167 | with a separator in the line, suffix from column 1 equals the default suffix |
| Stringfix.SuffixFromOneWithoutSeparator | src/hist-scraper.rs:166 | without a separator they differ: "ls" gives "" from column 1 and "s" by default |
| StringfixTests.InputColumns | src/hist-scraper.rs:159 | the test input splits into the five words |
| StringfixTests.ExampleDefaults | src/hist-scraper.rs:161-172 | the default suffix of the test input is "is a test string" and its prefix is "this" |
| StringfixTests.ExampleUnit | src/hist-scraper.rs:174-179 | column 2 of the test input is "a" |
| StringfixTests.ExamplePrefixThrough | src/hist-scraper.rs:185 | the prefix through column 3 is "this is a test" |
| StringfixTests.ExampleSuffixFrom | src/hist-scraper.rs:186 | the suffix from column 3 is "test string" |
| StringfixTests.OnlyTrailingSeparator | src/hist-scraper.rs:189-194 | a line whose only separator is its last character has an empty default suffix and its prefix is the line without that character |
| StringfixTests.ExampleTrailingSeparator | src/hist-scraper.rs:189-194 | "anything " has the empty default suffix, and its prefix is "anything", which is its `trim_end` |
| StringfixTests.TrimEndOneSpace | src/hist-scraper.rs:193 | `trim_end` of a word that ends in no whitespace, followed by one space, is the word |
| HistScraper.TargetLines | src/hist-scraper.rs:105-106 | one target line per newline plus one; line k is the k-th newline piece trimmed, so no line holds a newline and each is already trimmed |
| HistScraper.QueryKey | src/hist-scraper.rs:115 | the key of one query line, the trimmed default suffix at a space; QueryKeysSound and QueryKeysComplete state the keys in its terms |
| HistScraper.NonEmpty | src/hist-scraper.rs:114 | the filter on `l.len() > 0`, keeping the non-empty lines in order: specified by NonEmptyMembers |
| HistScraper.Mapped | src/hist-scraper.rs:115 | `.map(f)`: as many elements as the input, element i the image of input element i; MappedAppend adds the concatenation law |
| HistScraper.KeysOf | src/hist-scraper.rs:114-115 | filter then map with QueryKey: specified by KeysOfCons, NonEmptyMappedSound and NonEmptyMappedComplete |
| HistScraper.FirstKeyLine | src/hist-scraper.rs:114 | `.skip(!no_header as usize)`: the index of the first key line, 1 by default and 0 with `no_header`; used by QueryKeysSound, QueryKeysComplete and HeaderKey |
| HistScraper.QueryKeys | src/hist-scraper.rs:113-115 | the query keys: specified by QueryKeysSound, QueryKeysComplete and HeaderKey |
| HistScraper.Unmatched | src/hist-scraper.rs:137-147 | the lines that equal no key: specified by UnmatchedCounts, UnmatchedIndices, UnmatchedIdempotent and UnmatchedAppend |
| HistScraper.Filtered | src/hist-scraper.rs:130-148 | what the loop keeps: specified by FilteredPassThrough, FilteredKeeps, FilteredSubsequence, FilteredFromTarget, FilteredIdempotent and FilteredAppend |
| HistScraper.Scraped | src/hist-scraper.rs:105-150 | the text `main` writes: specified by ScrapedLines and ScrapedIdempotent |
| HistScraper.NonEmptyMembers | src/hist-scraper.rs:114 | a line survives the filter exactly when it is a non-empty input line |
| HistScraper.MappedAppend | src/hist-scraper.rs:115 | mapping a concatenation maps each part |
| HistScraper.NonEmptyMappedSound | src/hist-scraper.rs:114-115 | past line `first`, each mapped value is the image of a non-empty line at or past `first` |
| HistScraper.NonEmptyMappedComplete | src/hist-scraper.rs:114-115 | each non-empty line at or past `first` has its image among the mapped values |
| HistScraper.NonEmptyMappedCons | src/hist-scraper.rs:114-115 | filtering then mapping a list gives the first line's image (if that line is not empty), then the result for the rest |
| HistScraper.KeysOfCons | src/hist-scraper.rs:114-115 | the keys of a list are the first line's key (if it is not empty), then the keys of the rest |
| HistScraper.QueryKeysSound | src/hist-scraper.rs:113-115 | each query key comes from one non-empty query line at or past the first key line (1 by default, 0 with `no_header`) |
| HistScraper.QueryKeysComplete | src/hist-scraper.rs:113-115 | each non-empty query line at or past the first key line gives a query key |
| HistScraper.HeaderKey | src/hist-scraper.rs:114 | `no_header` adds exactly the header's key (when the header is not empty) in front of the default keys |
| HistScraper.UnmatchedCounts | src/hist-scraper.rs:137-147 | a line that is not a key is kept as many times as it occurs; a key never is |
| HistScraper.UnmatchedIndices | src/hist-scraper.rs:137-147 | the kept lines come from increasing positions of the input |
| HistScraper.UnmatchedIdempotent | src/hist-scraper.rs:137-147 | dropping the key lines a second time drops nothing |
| HistScraper.FilteredPassThrough | src/hist-scraper.rs:132-135 | output line i is target line i for each i below min(skip_n, number of target lines) |
| HistScraper.FilteredKeeps | src/hist-scraper.rs:137-147 | past `skip_n`, a target line is in the output exactly when it equals no key, and it is there as often as in the target |
| HistScraper.FilteredSubsequence | src/hist-scraper.rs:130-148 | the output is a subsequence of the target, in the original order |
| HistScraper.FilteredFromTarget | src/hist-scraper.rs:130-148 | every output line is a target line |
| HistScraper.FilteredIdempotent | src/hist-scraper.rs:130-148 | filtering the output again with the same keys and `skip_n` gives it back |
| HistScraper.UnmatchedAppend | src/hist-scraper.rs:137-147 | one more line is kept exactly when it equals no key |
| HistScraper.FilteredAppend | src/hist-scraper.rs:130-148 | one more target line is appended to the output exactly when it is among the first `skip_n` or equals no key |
| HistScraper.Filter | src/hist-scraper.rs:130-148 | the loop, with its `add_flag` and `break`, builds exactly `Filtered` |
| HistScraper.TargetLinesOfJoin | src/hist-scraper.rs:150 | reading back the join of trimmed, newline-free lines (non-empty list) gives those lines |
| HistScraper.ScrapedLines | src/hist-scraper.rs:150 | reading back the written text gives exactly the kept lines, unless none were kept |
| HistScraper.JoinedFilterIdempotent | src/hist-scraper.rs:130-150 | for lines that hold no newline and are already trimmed (as target lines are), filtering and joining the read-back output again gives the same text |
| HistScraper.ScrapedIdempotent | src/hist-scraper.rs:105-150 | running `main` on its own output, with the same query and options, writes the same text |
| HistScraper.Run | src/hist-scraper.rs:105-150 | the body of `main`, from the decoded texts to the written text, computes `Scraped` |

## Left out

- Command-line parsing with `clap` and `file_exists` (src/hist-scraper.rs:9-59). These are argument handling and filesystem queries. `skip_n` and `no_header` are parameters of the model.
- The choice between `--in-place` and `--output` (src/hist-scraper.rs:99-100). It only picks the file name written to.
- Reading and writing the files (src/hist-scraper.rs:103, 111, 151). The model starts from the texts and ends with the text written.
- `String::from_utf8_lossy` (src/hist-scraper.rs:104, 112). The model starts from already-decoded text.
- The `after_char` option (src/hist-scraper.rs:31-32). The program never reads it; the separator is fixed as a space.
- The commented-out `BufReader` code (src/hist-scraper.rs:120-128). It is dead code.
- Stringfix.Suffix: indices count characters, not bytes. Rust slices by byte, so a line without a space whose first character is not ASCII panics at a char boundary. The model drops one character instead.
- Stringfix.PrefixThrough: `col` is unbounded here, but in Rust it is a `usize`. At `col = usize::MAX`, `$col + 1` on line 86 overflows: a debug build panics, and a release build wraps to 0 and returns the empty string. The model returns the whole line there, as for every `col` past the last separator.
- Stringfix (all arms): the separator is a single character. The macro accepts any string pattern, but the `+ 1` of the default suffix (line 68) only works for a one-byte separator, and every arm is modelled with one character.
- Text.Trim: `char::is_whitespace` is written out as the Unicode White_Space list. Unicode data beyond that list is not modelled.
