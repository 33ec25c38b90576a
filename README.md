# Number conversion, word frequency, mode and median

A Dafny model of three small command-line utilities. Each one reads a file,
computes a result from the parsed contents and writes a report. The model
covers the computing core of each:

- **convert_numbers.py**: `to_binary` and `to_hexadecimal`.
  - A positive number gets its base-2 or base-16 digits by repeated division.
  - Zero gets `"0"`.
  - A negative number gets a variable-width "invert and add one" bit string.
    This is built by an in-place carry loop over a list of characters.
  - A negative number gets an empty hexadecimal string.
- **word_count.py**: the tokeniser `line.strip().split()` applied to given
  line contents (`read_words`), and `count_words`. `count_words` fills an
  insertion-ordered dictionary from word to number of occurrences.
- **compute_statistics.py**: `calculate_mode`, which builds the same kind of
  frequency dictionary and returns every value of maximal count, and
  `calculate_median`.

Structure:

- `sequences.dfy` (module `Sequences`): reference definitions used by both
  frequency tables.
  - `Count`: occurrences of a value.
  - `Distinct`: the distinct values in first-occurrence order.
  - `FirstIndex`, `KeepWithCount`.
  - The predicate `IsTally`: "these keys and counts are the frequency table of
    this sequence". The loops that fill dictionaries preserve it.
- `ordered_dict.dfy` (module `OrderedDict`): class `Dict`, Python's `dict` as
  the programs use it. It has a key sequence in insertion order and a map of
  values. Assigning to an existing key keeps its position; assigning to a new
  key appends it.
- `convert_numbers.dfy` (module `ConvertNumbers`):
  - Methods `ToBinary`, `IncrementInPlace` (the carry loop over an
    `array<char>`) and `ToHexadecimal`.
  - Each method is proved equal to a specification function: `Binary`,
    `Incremented` or `Hex`.
  - Lemmas relate these functions to the base-2 value `BitsValue` and the
    base-16 value `HexValue`.
- `word_count.dfy` (module `WordCount`):
  - The whitespace test `IsSpace`: the characters `str.isspace()` accepts.
  - `Strip` and `Split`.
  - Methods `ReadWords` and `CountWords`.
- `compute_statistics.dfy` (module `ComputeStatistics`):
  - `Sorted` (an insertion sort as the model of `sorted`) and `Median`.
  - The mode specification `Modes`.
  - Method `CalculateMode`.

The quirks of the source are modelled as written:

- The carry-out branch of `to_binary` (`binary_list.insert(0, '1')`) is kept.
  A lemma (`BinaryOfNegative`) proves it never fires.
- `to_hexadecimal` returns `""` for every negative number.

## Model

| member | source | states |
|---|---|---|
| `ConvertNumbers.ToBinary` | convert_numbers.py:19-45 | the result is `Binary(number)`, branch by branch; zero gives "0" |
| `ConvertNumbers.IncrementInPlace` | convert_numbers.py:33-41 | the array is replaced by its increment `Incremented(old a)`, worked from the right; the returned carry is 1 exactly when every bit was '1' |
| `ConvertNumbers.ToHexadecimal` | convert_numbers.py:47-56 | the result is `Hex(number)`; zero gives "0"; every negative number gives "" |
| `ConvertNumbers.Binary` | convert_numbers.py:19-45 | to_binary gives a non-empty string for every number (branch by branch "0", the division digits, or the carried complement); see BinaryOfPositive and BinaryOfNegative for its value |
| `ConvertNumbers.Bits` | convert_numbers.py:25-27 | the division loop emits no digit exactly when the number is 0; BitsMeaning gives the value of the digits |
| `ConvertNumbers.Inverted` | convert_numbers.py:30 | inverting keeps the length and, on a bit string, yields a bit string that differs from the input in every position |
| `ConvertNumbers.Incremented` | convert_numbers.py:33-41 | the carry loop keeps the length of the list; IncrementedShape and IncrementedValue give its contents and value |
| `ConvertNumbers.HexDigits` | convert_numbers.py:53-55 | the division loop emits no digit exactly when the number is not positive |
| `ConvertNumbers.Hex` | convert_numbers.py:47-56 | to_hexadecimal returns the empty string exactly when the number is negative |
| `ConvertNumbers.BitsAreBits` | convert_numbers.py:25-27 | the repeated-division loop emits only the characters '0' and '1' |
| `ConvertNumbers.BitsLeading` | convert_numbers.py:25-27 | for a positive number the first emitted digit is '1' |
| `ConvertNumbers.BitsMeaning` | convert_numbers.py:25-27 | for m > 0 the division digits form a non-empty bit string that starts with '1' and whose base-2 value is m |
| `ConvertNumbers.BinaryOfPositive` | convert_numbers.py:23-27 | for n > 0, to_binary(n) is a non-empty bit string starting with '1' whose base-2 value is n |
| `ConvertNumbers.InvertedValue` | convert_numbers.py:30 | inverting every bit keeps the length, and value(inverted) + value(s) + 1 = 2^len(s) |
| `ConvertNumbers.IncrementedShape` | convert_numbers.py:33-41 | the loop turns the trailing run of '1's into '0's and the rightmost non-'1' into '1'; every position to its left is unchanged |
| `ConvertNumbers.IncrementedAllOnes` | convert_numbers.py:34-37 | on a string of only '1's every bit becomes '0' (the left-over carry is the result of `IncrementInPlace`) |
| `ConvertNumbers.IncrementedValue` | convert_numbers.py:33-43 | the carry loop adds one modulo 2^len: value(result), plus 2^len when the carry runs out (exactly when all bits are '1'), is value(s) + 1 |
| `ConvertNumbers.AllOnesSnoc` | convert_numbers.py:34-35 | a bit string is all '1's exactly when its prefix is and its last bit is '1' |
| `ConvertNumbers.BinaryOfNegative` | convert_numbers.py:28-44 | for n < 0 the inverted string is never all '1's, so the insert at line 43 never fires; to_binary(n) is exactly as wide as to_binary(-n), k bits, and its base-2 value is 2^k + n |
| `ConvertNumbers.BinaryOfMinusFive` | convert_numbers.py:28-44 | to_binary(-5) is "011" |
| `ConvertNumbers.BinaryOfMinusThree` | convert_numbers.py:28-44 | to_binary(-3) is "01" |
| `ConvertNumbers.HexGlyph` | convert_numbers.py:49 | the d-th glyph of "0123456789ABCDEF" is a hexadecimal digit whose value is d |
| `ConvertNumbers.HexDigitsMeaning` | convert_numbers.py:52-56 | for m > 0 the loop builds a non-empty string of glyphs from the table, not starting with '0', whose base-16 value is m |
| `ConvertNumbers.HexOfPositive` | convert_numbers.py:49-56 | for n > 0, to_hexadecimal(n) uses only hex glyphs, does not start with '0' and denotes n in base 16 |
| `WordCount.IsSpace` | word_count.py:12 | the whitespace test of `str.isspace()`; IsSpaceMeaning states it |
| `WordCount.InSpaceRangesMeaning` | word_count.py:12 | scanning the range table from position i finds c exactly when c lies in one of the remaining ranges |
| `WordCount.IsSpaceMeaning` | word_count.py:12 | a character is whitespace exactly when it lies in one of the ranges of the table of characters `str.isspace()` accepts |
| `WordCount.TrimStart` | word_count.py:12 | the suffix of the line left after removing the leading whitespace: everything removed is whitespace, and what is left is empty or starts with a non-whitespace character |
| `WordCount.TrimEnd` | word_count.py:12 | the prefix left after removing the trailing whitespace, with the symmetric guarantees |
| `WordCount.Strip` | word_count.py:12 | `line.strip()`, trimming both ends; StripMeaning states it |
| `WordCount.StripMeaning` | word_count.py:12 | strip never lengthens the line; the result is empty or starts and ends with non-whitespace; it is empty exactly when the line is all whitespace; a line without whitespace is unchanged |
| `WordCount.Word` | word_count.py:12 | the longest whitespace-free prefix: a prefix, free of whitespace, followed by whitespace or the end, and non-empty when the line starts with a non-whitespace character |
| `WordCount.Split` | word_count.py:12 | every token `str.split()` yields is non-empty and holds no whitespace; SplitInterleave and SplitGaps show that every run of any whitespace separates tokens |
| `WordCount.SplitEmpty` | word_count.py:12 | a line yields no tokens exactly when it is empty or entirely whitespace |
| `WordCount.SplitChars` | word_count.py:12 | the tokens written one after another are exactly the line's non-whitespace characters in order: nothing lost, added or reordered |
| `WordCount.SplitAppendSpaces` | word_count.py:12 | trailing whitespace does not change the tokens |
| `WordCount.SplitStrip` | word_count.py:12 | `line.strip().split()` has the same tokens as `line.split()` |
| `WordCount.SplitJoin` | word_count.py:12 | for non-empty whitespace-free tokens, splitting their single-space join gives them back (split inverts join) |
| `WordCount.TrimStartSkip` | word_count.py:12 | stripping leading whitespace from whitespace followed by a word start removes exactly the whitespace |
| `WordCount.WordBefore` | word_count.py:12 | a whitespace-free piece followed by whitespace or the end is read as one whole token |
| `WordCount.SplitAfter` | word_count.py:12 | whitespace, then a token, then whitespace or the end: split yields that token followed by the tokens of the rest |
| `WordCount.SplitInterleave` | word_count.py:12 | for non-empty whitespace-free tokens and separators of any whitespace (non-empty between tokens, possibly empty at the ends), split returns exactly the tokens |
| `WordCount.Gaps` | word_count.py:12 | the whitespace runs of a line, the first being its leading whitespace |
| `WordCount.GapsLength` | word_count.py:12 | a line has one more whitespace run than tokens |
| `WordCount.GapsSeparate` | word_count.py:12 | the runs form valid separators: all whitespace, and non-empty between two tokens |
| `WordCount.SplitGaps` | word_count.py:12 | every line is its whitespace runs interleaved with its tokens (the converse of SplitInterleave) |
| `WordCount.SplitLines` | word_count.py:11-12 | the words of successive lines, concatenated in line order, are all non-empty and whitespace-free |
| `WordCount.SplitLinesChars` | word_count.py:11-12 | the word list written out is the non-whitespace characters of the whole text, in file order |
| `WordCount.ReadWords` | word_count.py:9-13 | extending the word list line by line with `line.strip().split()` gives the tokens of all lines in order |
| `WordCount.CountWords` | word_count.py:15-23 | the keys are the distinct words in first-occurrence order; a word has an entry exactly when it occurs; each count is its number of occurrences (exact string equality) and at least 1; the counts sum to len(words) |
| `OrderedDict.Dict.constructor` | word_count.py:17 | a new dictionary is empty and well formed |
| `OrderedDict.Dict.Contains` | word_count.py:19 | `word in word_count` holds exactly when the word is among the keys |
| `OrderedDict.Dict.Get` | compute_statistics.py:45 | `d.get(k, 0)` is the stored value when the key is present and the default otherwise |
| `OrderedDict.Dict.Put` | word_count.py:20-22 | assignment stores the value under the key; an existing key keeps its position, a new key is appended at the end |
| `Sequences.Count` | word_count.py:18-22 | the number of occurrences is at most the length, and positive exactly when the value occurs |
| `Sequences.Distinct` | word_count.py:18-22 | the distinct values: each occurs in the input, every input value is among them, and none is repeated |
| `Sequences.DistinctOrder` | word_count.py:19-22 | the distinct values come in first-occurrence order |
| `Sequences.CountNoDuplicates` | word_count.py:19-22 | in a sequence without repetitions a value occurs once or not at all |
| `Sequences.SumCountsDistinct` | word_count.py:18-22 | the occurrence counts of the distinct values add up to the length of the input |
| `Sequences.TallySeen` | word_count.py:19-20 | counting an already-seen value only increments its count; the key order is unchanged |
| `Sequences.TallyFirst` | word_count.py:21-22 | counting a value at its first sighting appends it as a key with count 1 |
| `Sequences.TallyFacts` | word_count.py:17-23 | a frequency table's keys are in first-occurrence order and all present, every count is at least 1, and the counts sum to the input length |
| `Sequences.KeepWithCount` | compute_statistics.py:47 | the keys with the given count: each kept value is a key with that count, and every key with that count is kept |
| `Sequences.KeepWithCountOrder` | compute_statistics.py:47 | filtering keys in first-occurrence order keeps that order and introduces no repetition |
| `ComputeStatistics.Insert` | compute_statistics.py:31 | inserting a value adds one element and that value's occurrence, and nothing else |
| `ComputeStatistics.InsertSorted` | compute_statistics.py:31 | inserting into an ascending sequence keeps it ascending |
| `ComputeStatistics.Sorted` | compute_statistics.py:31 | `sorted(data)` is ascending and a permutation of data: same length, same multiset |
| `ComputeStatistics.SortedUnique` | compute_statistics.py:31 | two ascending sequences with the same multiset are equal, so the sorted order depends only on the multiset |
| `ComputeStatistics.Median` | compute_statistics.py:27-37 | the median lies between the two middle elements of the sorted data (they coincide when n is odd) |
| `ComputeStatistics.MedianOdd` | compute_statistics.py:33-34 | for odd n the median is sorted_data[n//2], which is an element of data |
| `ComputeStatistics.MedianEven` | compute_statistics.py:35-36 | for even n the median is the average of the two middle sorted elements, lies between them, and both are data values |
| `ComputeStatistics.MedianPermutation` | compute_statistics.py:31-37 | the median is unchanged by any permutation of the data |
| `ComputeStatistics.ValuesOf` | compute_statistics.py:46 | `frequency.values()` has one entry per key, each key's value, in key order |
| `ComputeStatistics.KeysWithValue` | compute_statistics.py:47 | the comprehension keeps only keys whose value is the given one, and keeps every such key |
| `ComputeStatistics.Max` | compute_statistics.py:46 | `max` of a non-empty list is one of its elements, and no element exceeds it |
| `ComputeStatistics.MaxCount` | compute_statistics.py:46 | the maximal frequency is the count of some data value, and no value occurs more often |
| `ComputeStatistics.TallyBump` | compute_statistics.py:45 | `frequency[number] = frequency.get(number, 0) + 1` keeps the table a frequency table of the data read so far |
| `ComputeStatistics.KeysWithCount` | compute_statistics.py:47 | on a table whose values are the occurrence counts, the comprehension over items() keeps exactly the keys with the given count, in key order |
| `ComputeStatistics.ModesOfTally` | compute_statistics.py:46-47 | on the frequency table of data, the comprehension with `max` of the values yields Modes(data) |
| `ComputeStatistics.ModesMeaning` | compute_statistics.py:43-47 | the modes are non-empty; each occurs exactly max_frequency times; no value occurs more often; every value with maximal count is a mode; they have no repeats and come in first-occurrence order |
| `ComputeStatistics.ModeOf` | compute_statistics.py:48 | a scalar exactly when there is one mode, otherwise the whole list of at least two values; the values are the modes either way |
| `ComputeStatistics.CalculateMode` | compute_statistics.py:39-48 | the returned values are Modes(data); the result is a scalar exactly when one value attains the maximal count, otherwise a list of at least two |

## Left out

- File I/O is not modelled:
  - `read_data` (convert_numbers.py:7-17, compute_statistics.py:7-19) and the
    file side of `read_words` (word_count.py:10-11) read files. `ReadWords`
    takes the lines of the file as a given sequence of strings.
  - The `write_results` functions and the execution-time appends in `main`
    write to the console and to append-mode files.
- Number parsing is not modelled: `int(...)` and `float(...)` and their
  `ValueError` skip-and-print paths use Python's built-in number grammar. The
  numeric kernels take already-parsed values.
- `main` is not modelled (all three files): the `sys.argv` checks, `sys.exit`
  and `time.time()` are process control and clock reads.
- The empty-data guard in `main` (compute_statistics.py:82-84) is not modelled.
  `CalculateMode` and `Median` instead require non-empty data: on empty data
  the source raises in `max` (line 46) and indexes `sorted_data[-1]` (line 36).
- `calculate_mean`, `calculate_variance` and `calculate_std_dev` are not
  modelled: they are floating-point arithmetic, and `variance ** 0.5` is a
  square root.
- Median: models data as integers and the median as an exact real, not as
  floats. Rounding in `(a + b) / 2` is therefore not modelled.
- CalculateMode: models keys as integers with exact equality, so the
  float-key behaviour of `dict` (NaN never equal to itself, `-0.0 == 0.0`,
  `1.0` and `1` the same key) is not modelled.
- Split: the whitespace set is the fixed table of the characters
  `str.isspace()` accepts. No other Unicode handling (normalisation, case
  folding) is modelled, and none is done by the source.
- `Sorted` is an insertion sort. It models only the result of Python's
  `sorted` (ascending, a permutation, and unique by `SortedUnique`), not its
  algorithm or its stability.
- `IncrementInPlace` works on an `array<char>` filled from the inverted string.
  The source's `binary_list.insert(0, '1')` and `''.join` are modelled as
  sequence operations on the array's contents.
