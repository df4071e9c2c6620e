# calm: corpus reader and batch feeding, modelled in Dafny

This models the data handling of `rnnlm.py`, the single-process trainer of
calm, a recurrent language model trained over user-attributed text.

- `ReadData` reads `username<TAB>text` lines. It makes a positional
  train/held-out split on the line index: training keeps `i % 10 != 0`, and
  every other mode keeps `i % 10 == 0`. It stops at the first index greater
  than `limit`. It returns two aligned lists: usernames, and texts that are
  lowercased, split on whitespace and wrapped in `<S>` … `</S>`.
- The next-token shift turns each padded batch `s` into model inputs
  `s[:, :-1]` and targets `s[:, 1:]`. `distrib.py` repeats the same shift.
- `GetText` turns the first `seq_len` ids of row 0 back into words and joins
  them with spaces.

Files and modules:

- `results.dfy` (`Results`): the `Result` type. It stands for the exceptions
  the source raises.
- `strings.dfy` (`Strings`): the Python 2 byte-string built-ins the code
  relies on: `str.lower()`, `str.split()`, `str.split('\t')` and `' '.join`.
  Character classes follow the C locale. Whitespace is `' '` and `'\t'`..`'\r'`.
  Upper case is `'A'`..`'Z'`.
- `corpus_reader.dfy` (`CorpusReader`): `ReadData` as a method with a loop.
  The loop mirrors the source's `enumerate` loop, including its `continue`s.
  Its `break` is written as the `return` the break leads to. The method is proved against `KeptIndices`, the function that
  says which line indices are kept. The split properties are proved as
  lemmas about `KeptIndices`.
- `feed.dfy` (`Feed`): the shift and `GetText`, as functions.

Details of `rnnlm.py` the model keeps:

- A line fails unless it holds exactly one tab: `username, text =
  line.split('\t')` needs exactly two fields, so a line with no tab and a
  line with two or more tabs both fail.
- `limit` is compared with the line index (`idnum > limit`). So indices
  `0..limit`, that is `limit + 1` lines, are eligible. The line at index
  `limit + 1` is still split on the tab before the loop stops, so a malformed
  line there makes the whole read fail.
- The held-out side of the split is every mode other than `train`. `debug`
  and `eval` therefore read the same lines.
- `ReadData` reads every line of the file itself; it takes no worker or
  shard arguments.

Inputs are lines as the file iterator yields them, each with its line
terminator. `str.split()` drops the terminator from the text field. The
vocabulary's `idx_to_word` is passed in as a map.

## Model

| member | source | states |
|---|---|---|
| `Strings.LowerChar` | rnnlm.py:53 | an upper-case letter `A`-`Z` becomes the letter 32 code points later (`a`-`z`); every other character is unchanged; no result is upper case |
| `Strings.Lower` | rnnlm.py:53 | `text.lower()` keeps the length, lowers each character on its own, leaves no upper-case letter, and keeps every whitespace position |
| `Strings.Split` | rnnlm.py:53 | every word `str.split()` returns is non-empty and free of whitespace |
| `Strings.SplitAtSpace` | rnnlm.py:53 | `str.split()` cuts at every whitespace character: the words of `a + [c] + b`, for whitespace `c`, are the words of `a` followed by the words of `b` |
| `Strings.SplitOfWord` | rnnlm.py:53 | a non-empty whitespace-free string splits into itself alone; with `SplitAtSpace` and `Split("") == []` this fixes the result on every string |
| `Strings.SplitKeepsNonSpace` | rnnlm.py:53 | `str.split()` loses only whitespace: the words, concatenated, are exactly the non-whitespace characters of the input |
| `Strings.SplitNoUpper` | rnnlm.py:53 | splitting a string with no upper-case letter gives words with no upper-case letter |
| `Strings.Join` | rnnlm.py:141 | `' '.join(ws)` is empty for no words and starts with the first word otherwise; its inverse is `SplitJoin` |
| `Strings.JoinLength` | rnnlm.py:141 | `sep.join(ws)` of at least one word holds every character of the words plus one `sep` for each of the `|ws| - 1` gaps |
| `Strings.SplitJoin` | rnnlm.py:141 | joining whitespace-free words on `' '` and splitting the result gives back the same words |
| `Strings.SplitOn` | rnnlm.py:39 | `line.split('\t')` gives one field more than there are tabs, and no field holds a tab |
| `Strings.JoinSplitOn` | rnnlm.py:39 | re-joining the fields of `line.split('\t')` with the tab gives back the line |
| `Strings.SplitOnJoin` | rnnlm.py:39 | splitting on the tab undoes joining with it when no field holds a tab |
| `CorpusReader.LineRoundTrip` | rnnlm.py:39 | the username/text unpack succeeds exactly when the line holds one tab; the two fields are the text on either side of it; any tab-free username and text written as `username<TAB>text` read back unchanged |
| `CorpusReader.Tokenize` | rnnlm.py:53 | a token list has at least two entries, starts with `<S>` and ends with `</S>`; every inner token is a non-empty lower-case word without whitespace and is never a marker |
| `CorpusReader.TokenizeKeepsText` | rnnlm.py:53 | the inner tokens, concatenated, are exactly the lowered text's non-whitespace characters |
| `CorpusReader.Eligible` | rnnlm.py:44-45 | the lines with index at most `limit` number at most the lines given |
| `CorpusReader.Reached` | rnnlm.py:39-45 | the lines split on the tab include all eligible lines and at most one more, and never exceed the lines given |
| `CorpusReader.ReachedLines` | rnnlm.py:39-45 | line `i` of `n` is split on the tab if and only if `i < n` and it is line 0 or its index is at most `limit + 1` |
| `CorpusReader.LoopStop` | rnnlm.py:44-45 | when the loop stops at line `stop`, either the first index past `limit` or the end of the lines, the eligible lines are exactly those before `stop`, and the line at `stop`, if there is one, is the last line split on the tab |
| `CorpusReader.KeptIndices` | rnnlm.py:47-50 | every kept index is below the eligible count and in the split of the mode |
| `CorpusReader.KeptIndicesMembership` | rnnlm.py:47-50 | an index is kept if and only if it is below the eligible count and in the split of the mode |
| `CorpusReader.SelectedLines` | rnnlm.py:44-50 | line `i` of `n` is kept if and only if `i < n`, `i <= limit` and `i` is in the split of the mode (training: `i % 10 != 0`; other modes: `i % 10 == 0`) |
| `CorpusReader.KeptIndicesIncreasing` | rnnlm.py:52-53 | kept indices are strictly increasing, so records keep file order |
| `CorpusReader.SplitsPartition` | rnnlm.py:47-50 | over the same lines, training and any other mode keep disjoint index sets that together cover every eligible index |
| `CorpusReader.NonTrainModesAgree` | rnnlm.py:49-50 | `debug` and `eval` keep the same indices |
| `CorpusReader.HeldOutIndices` | rnnlm.py:49-50 | outside training, the kept indices below `e` are exactly `0, 10, 20, …`, which is `(e + 9) / 10` of them |
| `CorpusReader.TrainCount` | rnnlm.py:47-48 | training keeps `e - (e + 9) / 10` of the first `e` indices |
| `CorpusReader.TrainIndices` | rnnlm.py:47-48 | in training, the `k`-th kept index below `e` is `k + k / 9 + 1`: the nine indices after each multiple of ten |
| `CorpusReader.ReadData` | rnnlm.py:33-55 | succeeds if and only if every line reached (all eligible lines plus the first one past the limit) holds exactly one tab; on failure, names the first such line and its field count; on success, returns equal-length usernames and token lists whose entry `k` is the username and the tokenised text of the `k`-th kept line (`Records` over `KeptIndices`) |
| `CorpusReader.ReadThirtyHeldOut` | rnnlm.py:49-50 | thirty well-formed lines read in any mode other than training (`debug` or `eval`) at the default limit succeed and give exactly the usernames and token lists of lines 0, 10 and 20 |
| `CorpusReader.ReadThirtyTrain` | rnnlm.py:47-48 | the same thirty lines read in training mode succeed and give 27 records; record `k` is the username and token list of line `k + k / 9 + 1`, so lines 0, 10 and 20 give no record |
| `CorpusReader.TrainRecordsOfThirty` | rnnlm.py:47-48 | records of the training indices of thirty well-formed lines are 27, and record `k` comes from line `k + k / 9 + 1` |
| `Feed.Inputs` | rnnlm.py:100 | `s[:, :-1]` keeps the row count, gives every non-empty row one column fewer, and keeps columns `0..W-2` unchanged |
| `Feed.Targets` | rnnlm.py:101 | `s[:, 1:]` keeps the row count, gives every non-empty row one column fewer, and its column `j` is column `j + 1` of the batch |
| `Feed.ShiftAlignment` | rnnlm.py:100-101 | for a batch of width `W >= 1`, inputs and targets both have width `W - 1`; `y[r][j] == x[r][j+1]` for `j < W - 2`; each row is its input row plus its last id, or its first id plus its target row |
| `Feed.RowWords` | rnnlm.py:140 | the word list succeeds if and only if the row has at least `n` columns and its first `n` ids are in the vocabulary; it then has `n` words, word `i` being the vocabulary entry of the id in column `i`; otherwise it names the first failing column |
| `Feed.GetText` | rnnlm.py:139-141 | succeeds if and only if `seq_len <= 0`, or row 0 exists, has at least `seq_len` columns and the first `seq_len` ids are in the vocabulary; a missing row is reported only for an empty batch; a non-positive `seq_len` gives the empty text; otherwise the text is the `' '`-join of the vocabulary entries of `s[0][0..seq_len-1]` |
| `Feed.GetTextWords` | rnnlm.py:139-141 | with whitespace-free vocabulary words, the text splits back into exactly `seq_len` words, word `i` being the entry of `s[0][i]` |
| `Feed.GetTextRowZeroOnly` | rnnlm.py:140 | two batches with the same row 0 give the same text |

## Left out

- All of `distrib.py` is left out. That covers cluster and role setup, the
  readiness-file barrier, device placement, the Supervisor and checkpoints,
  and the training loop. They are cross-process coordination and tensor
  engine calls. The x/y shift at `distrib.py:141-142` is the same slicing as
  `Feed.Inputs`/`Feed.Targets`.
- `vocab.Vocab` and `batcher.Dataset` are not modelled. They live in
  `vocab.py` and `batcher.py`, outside `rnnlm.py`. That covers vocabulary
  building, saving and loading, username vocabularies, shuffling, padding and
  batch assembly. `GetText` takes the vocabulary's `idx_to_word` as a map.
- Worker sharding is done by `batcher.ReadData`'s `worker`/`num_workers`
  arguments (`distrib.py:69-74`). It is not modelled.
- Argument parsing and the creation of the experiment directory are left out
  (`rnnlm.py:17-28`). The mode and the limit become parameters of `ReadData`.
- bz2 decompression and file iteration are left out. `ReadData` takes the
  sequence of lines the file yields.
- The progress print every 30000 lines (`rnnlm.py:41-42`) is output only, so
  it is left out.
- The TensorFlow session, model construction, `Train`, `Greedy` and `Eval`
  are left out (`rnnlm.py:79-180`). They are foreign calls. The inline copy
  of `GetText` at `rnnlm.py:109` is left out with them.
- The perplexity accumulation (`rnnlm.py:168-171`) is floating point, so it
  is left out.
- `Strings.Lower`: lowers ASCII `A`-`Z` only. This matches Python 2 byte
  strings in the C locale, but not Unicode-aware lowercasing.
- Word ids are unbounded integers. The numpy integer width plays no role in
  these operations.
