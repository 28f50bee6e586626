# Page index synchroniser: a Dafny model of the index merge

`generate.py` keeps `index.json`, a map from page file name to
`{name, tags, date}`, up to date with the `pages` directory. It runs
`git pull`, loads the index, then walks the directory listing. For each file
name that is not yet a key it prints a notice, asks the operator for a title
and a tags line, splits the tags line at whitespace runs, stamps the record with
the current time, and inserts it. Finally it writes the whole index back.

This project models the two pieces of that run that carry logic:

- `tags.dfy`, module `TagSplit`: the tag tokeniser `re.split("\s+", tags)`.
  `SplitWs` cuts a line at every maximal run of whitespace. `Gaps` gives the
  runs it removed. `Join` puts tokens and runs back together. The lemmas show
  the following. Every token is free of whitespace. Only the first and last
  token may be empty. The first token is empty exactly when the line is empty
  or starts with whitespace, and the last token likewise for the end. Joining
  the tokens with the runs rebuilds the line. This cut is the only cut with
  these properties.
- `generate.dfy`, module `Generate`: the loop of `main`. The method
  `UpdateIndex` runs over a `map<string, Record>` and the listing. It returns
  either the new index together with the names it reported, or the error raised
  when standard input runs out. It is proved equal to `Merge`, a fold of `Step`
  over the listing. The lemmas about `Merge` compare it with `FreshNames`, an
  independent definition of "the distinct listed names missing from the index,
  in listing order".

The environment is passed in as parameters:

- The directory listing is a `seq<string>`, in whatever order the file system
  returned it.
- For each missing page, the run reads a `Reply`: the title line, the tags line,
  and the clock reading already truncated to whole seconds (`int(time())`). The
  replies are consumed one per inserted page, in listing order.
- End of input is the case where no reply is left when a prompt is due.
  `input()` then raises `EOFError`, the run stops, and `index.json` is not
  rewritten. The model returns `Err(InputExhausted(file))`.

`\s` is fixed to the six ASCII whitespace characters: space and U+0009 to
U+000D (tab, line feed, vertical tab, form feed, carriage return). The pattern
literal `"\s+"` is not a raw string. Python keeps the unknown escape `\s` as a
backslash followed by `s`, so the regular expression really is `\s+`.
Splitting uses greedy matching, so each match is a maximal run. `re.split`
returns `[""]` for an empty line, and it returns an empty first or last piece
when a run touches that end.

## Model

| member | source | states |
|---|---|---|
| `TagSplit.SplitWs` | generate.py:26 | `re.split` of `\s+` always returns at least one piece, even for the empty line |
| `TagSplit.WordEnd` | generate.py:26 | the word starting at a position ends at the first whitespace character or at the end of the line |
| `TagSplit.RunEnd` | generate.py:26 | a greedy `\s+` match starting at a position covers whitespace only and stops at the first non-space or at the end of the line |
| `TagSplit.Gaps` | generate.py:26 | the runs removed by the split are one fewer than the pieces |
| `TagSplit.SplitWsPieces` | generate.py:26 | no piece contains whitespace, every removed run is non-empty whitespace, only the first and last piece can be empty, and an empty first piece with more after it means the line starts with whitespace |
| `TagSplit.SplitWsJoin` | generate.py:26 | interleaving the pieces with the removed runs rebuilds the tags line exactly |
| `TagSplit.SplitWsDecomposes` | generate.py:26 | the pieces and runs form a decomposition of the line into whitespace-free tokens separated by maximal runs |
| `TagSplit.SplitWsUnique` | generate.py:26 | any such decomposition of the line is the one `SplitWs` and `Gaps` produce, so the split is determined by its properties |
| `TagSplit.SplitWsLeading` | generate.py:26 | the first piece is empty if and only if the line is empty or starts with whitespace |
| `TagSplit.SplitWsTrailing` | generate.py:26 | the last piece is empty if and only if the line is empty or ends with whitespace |
| `TagSplit.NoEmptyTags` | generate.py:26 | a non-empty line with no whitespace at either end gives no empty tag |
| `TagSplit.SplitWsExample` | generate.py:26 | `"a  b\tc"` splits into `["a", "b", "c"]` |
| `TagSplit.SplitWsEdgeExamples` | generate.py:26 | `" a "` splits into `["", "a", ""]` and the empty line into `[""]` |
| `Generate.FreshNames` | generate.py:17-19 | the names that will be prompted for: no name twice, and a name is in the list exactly when it is listed and not already a key |
| `Generate.UpdateIndex` | generate.py:17-28 | the loop over the listing returns exactly what `Merge` specifies, on success and on end of input alike |
| `Generate.MergeErrorPersists` | generate.py:22-23 | once a prompt finds no input, the rest of the listing is not processed and the run ends with that error |
| `Generate.FreshNamesSnoc` | generate.py:17-19 | one more listed name adds itself to the prompted names, at the end, exactly when it is neither a key nor listed earlier |
| `Generate.MergeOutcome` | generate.py:17-28 | the run succeeds if and only if there is a reply for every distinct missing name. On success it reports exactly those names in listing order, and the key set is the old keys plus every listed name. On failure the error names the first missing name without a reply |
| `Generate.MergeKeepsExisting` | generate.py:18-19 | every key of the loaded index stays, with exactly its old name, tags and date |
| `Generate.MergeNewRecords` | generate.py:21-28 | the i-th reported page is a key, and its record holds the i-th reply's title, the split of the i-th tags line and the i-th clock reading; no more replies are used than given |
| `Generate.MergeCovered` | generate.py:17-19 | if every listed name is already a key, the run prompts for nothing and returns the index unchanged |
| `Generate.MergeIdempotent` | generate.py:17-19 | a second run over the same listing on the output of a successful run prompts for nothing and returns that output unchanged |
| `Generate.TwoPageScenario` | generate.py:17-28 | with `p1.html` indexed and the listing `p1.html`, `p2.html`, only `p2.html` is prompted for. Its tags line `"intro draft"` becomes `["intro", "draft"]`, and the stored date is the clock reading |
| `Generate.OneNewPage` | generate.py:17-28 | a listing of one indexed name and one new name inserts the new record only and consumes one reply |

## Left out

- `git pull origin master` (generate.py:10): an external process whose exit status is ignored. Whatever it changes in the working tree reaches the model only through the loaded index and the listing, which are inputs.
- Reading and writing `index.json` with `json.load` and `json.dump(indent=2, ensure_ascii=False)` (generate.py:13-14, 31-32): this is file I/O and serialisation. The model's `Index` map stands for the parsed object. The fatal errors of that I/O (missing or malformed file, failed write) are not modelled.
- Key order of the written JSON: Python dictionaries keep insertion order, and Dafny maps are unordered. The order in which new keys are appended is the order of `added` in the result.
- `os.listdir("pages")` (generate.py:17): the listing is an input sequence. A missing directory is not modelled.
- `print` and `input` (generate.py:21-23): console I/O. The printed notices are the `added` names, and the answers are the `Reply` sequence.
- `time()` (generate.py:27): the floating-point clock is not modelled. Each reply carries the already truncated integer second.
- Unicode whitespace: `IsWs` accepts only the six ASCII whitespace characters. Python's `\s` on `str` patterns also matches Unicode whitespace such as U+001C to U+001F, U+0085, U+00A0 and U+2028. Those characters are treated here as ordinary characters.
- Records in the loaded index are assumed to be well-formed `{name, tags, date}` objects. The source never reads them, copying them through untouched, and `MergeKeepsExisting` states exactly that for the model.
