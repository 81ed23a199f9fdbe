# LoGo dataset-name reconciliation, modelled in Dafny

The LoGo repository has four small scripts that prepare the FLAN v2 training
data. Each one reconciles a hand-written list of dataset names with the names
some registry knows about:

- `dataset/test_1.py` and `dataset/test_3.py` compare against the SeqIO task
  registry;
- `dataset/test_2.py` compares against the dataset column of a CSV manifest;
- `dataset_2/flan_v2_huggingface.py` compares against the file listing of a
  Hugging Face dataset repository.

This project models the logic those scripts share, as pure functions over
strings and sequences:

- **The loader** (`Loader`): `load_dataset_names` / `load_target_names`. It
  splits the content on `,` and `\n` and strips every piece. It drops blank
  pieces and pieces whose raw text starts with `#`.
- **String primitives** (`Text`): Python's `strip`, `lower`, the two
  `replace` calls, `s[:5]`, substring `in` and `startswith`.
- **Normalisation** (`Text.Normalize`): `-` becomes `_`, then the name is
  lower-cased.
- **The two matching rules** (`Matching`):
  - the loose rule of the test scripts: the candidate's first five
    characters occur in the base, with the base's `_*` marks removed when it
    holds a `*`;
  - the prefix rule of the flan_v2 script.
- **The match report** (`MatchLog`): an insertion-ordered dict modelled as an
  association list, with Python's assignment semantics. An existing key keeps
  its place; a new key goes last. The report loop's counters are included.
- **The reconciliation loop of the test scripts** (`Reconcile`), with the one
  way test_2 differs. It lower-cases the candidate only for the comparison and
  stores the candidate unchanged.
- **test_2's candidate source** (`CsvColumn`): the second field of every row
  after the header, deduplicated and sorted (`Order`).
- **flan_v2's `validate_targets`** (`FlanV2`): the partition into names with
  and without `*`, `invalid_targets` and `file_counter`.
- **The four main blocks** (`Scripts`), composed from the parts above.

Every file read, the SeqIO registry, the CSV parser and the remote listing
are parameters. The scripts' report files are reduced to the counters they
print.

The report's "matched / matched + unmatched" line counts dict keys, so
matched plus unmatched is the number of *distinct normalised* base names, not
the number of loaded names (`Reconcile.BuildLogSize`). Repeated or
case-variant names collapse into one key.

## Model

| member | source | states |
|---|---|---|
| Text.IsSpace | dataset_2/flan_v2_huggingface.py:12 | the characters `strip()` removes, restricted to ASCII: tab, line feed, vertical tab, form feed, carriage return, the separators 0x1C-0x1F and space |
| Text.Strip | dataset_2/flan_v2_huggingface.py:12 | the stripped piece is a contiguous slice of the piece, with only whitespace cut from either end; it starts and ends with non-whitespace, and it is empty exactly when the piece is all whitespace |
| Loader.SplitFields | dataset_2/flan_v2_huggingface.py:12 | splitting on `[,\n]` always gives at least one piece, even for empty content |
| Loader.SplitFieldsPieces | dataset_2/flan_v2_huggingface.py:12 | no piece of the split holds a `,` or a line feed |
| Loader.PushConcat | dataset/test_1.py:32 | a leading character only changes the first piece: it commutes with appending further pieces |
| Loader.SplitFieldsCount | dataset/test_1.py:32 | the split gives exactly one more piece than the content has separators, empty pieces included |
| Loader.SplitJoin | dataset/test_2.py:16 | joining the pieces back with the content's separators, in order, gives back the content |
| Loader.SplitConcat | dataset/test_3.py:35 | the pieces of `a`, a separator and `b` are the pieces of `a` followed by the pieces of `b` |
| Loader.IsNamePiece | dataset_2/flan_v2_huggingface.py:12 | the comprehension's filter: a piece is kept when it is not blank after stripping and its raw text does not start with `#`; `Loader.LoadNamesMembership` states the loader keeps exactly these pieces |
| Loader.LoadNames | dataset_2/flan_v2_huggingface.py:6-14 | every loaded name is non-empty, holds no `,` or line feed, and neither starts nor ends with whitespace; there are at most as many names as pieces |
| Loader.LoadNamesMembership | dataset/test_1.py:26-34 | a name is loaded exactly when some piece of the content is neither blank nor `#`-initial and strips to it |
| Loader.LoadNamesConcat | dataset/test_2.py:10-18 | the loader keeps source order: the names of two stretches of content joined by a separator are the first stretch's names followed by the second's |
| Loader.LoadNamesSingle | dataset/test_3.py:26-37 | separator-free content gives its stripped text when it is a name piece, and nothing otherwise |
| Loader.LoadNamesDropsCommentAndBlank | dataset/test_1.py:32 | `# ignore_me`, an empty line and `foo` load as just `foo` |
| Loader.LoadNamesKeepsIndentedHash | dataset_2/flan_v2_huggingface.py:12 | the comment test looks at the raw piece, so ` # x` survives and loads as `# x` |
| Text.ReplaceHyphens | dataset/test_1.py:54 | `replace('-', '_')`: the length is kept, every hyphen becomes an underscore and every other character is unchanged |
| Text.Lower | dataset/test_1.py:55 | `lower()` on ASCII: the length is kept, each character is lower-cased on its own, and the result has no upper-case letter |
| Text.Normalize | dataset/test_1.py:54-55 | normalisation keeps the length and leaves no hyphen and no upper-case letter |
| Text.NormalizeIdempotent | dataset/test_3.py:58-59 | normalising a normalised name changes nothing |
| Text.NormalizeFixedPoint | dataset/test_3.py:63-64 | a name is its own normal form exactly when it holds no hyphen and no capital |
| Text.StartsWith | dataset_2/flan_v2_huggingface.py:41 | `s.startswith(p)`: `p` is no longer than `s` and equals the first `len(p)` characters of `s` |
| Text.Head | dataset/test_3.py:71 | `s[:n]` has length `min(len(s), n)`, is a prefix of `s`, and is all of `s` when `s` is no longer than `n` |
| Text.Contains | dataset/test_1.py:67 | the empty string and every prefix are contained, and nothing longer than the text is |
| Text.ContainsIff | dataset/test_1.py:70 | substring containment holds exactly when the needle occurs at some index of the text |
| Text.RemoveMarks | dataset_2/flan_v2_huggingface.py:34 | removing the `_*` marks shortens a name by an even count, only when it holds a mark, introduces no new characters, and leaves a mark-free name unchanged |
| Text.RemoveMarksConcat | dataset/test_1.py:64 | every `_*` is removed wherever it stands, and the text on either side of it is cleaned independently; with the mark-free case this fixes the result of `replace('_*', '')` for every name |
| Matching.WildcardPrefix | dataset_2/flan_v2_huggingface.py:33-36 | the prefix is the name itself when the name has no `*`, is never longer than the name, and uses only the name's characters |
| Matching.WildcardPrefixMarks | dataset_2/flan_v2_huggingface.py:33-34 | a name holding a mark is matched with the text before the mark and the text after it, each with its own marks removed |
| Matching.WildcardPrefixChanges | dataset/test_1.py:63-64 | the prefix differs from the name exactly when the name contains `_*`; a `*` without a `_` before it is kept |
| Matching.LooseMatch | dataset/test_1.py:63-71 | the loose rule: the first five characters of the candidate occur in the base, or in the base with its `_*` marks removed when the base holds a `*`; the lemmas below state what it accepts |
| Matching.PrefixMatch | dataset_2/flan_v2_huggingface.py:33-41 | the flan_v2 rule: the file path starts with the raw name, or with the name with its `_*` marks removed when the name holds a `*` |
| Matching.LooseMatchHeadOnly | dataset/test_3.py:71 | two candidates with the same first five characters match the same bases |
| Matching.LooseMatchShortKey | dataset/test_3.py:73-75 | a candidate of at most five characters matches when it occurs whole in the base's wildcard prefix (the base with its `_*` marks removed when it holds a `*`), and the empty candidate matches every base |
| Matching.LooseMatchSelf | dataset/test_3.py:74-75 | a `*`-free base matches every candidate it starts with; it also matches every candidate that starts with it, once the base has at least five characters |
| Matching.LooseMatchWildcardExample | dataset/test_1.py:63-68 | `foo_*` has prefix `foo`, and `foobar_task` does not match it, because the loose rule is a substring test and not a glob |
| Matching.WikiLinguaMatches | dataset/test_3.py:46 | every candidate starting with `wiki_` matches the hard-coded base `wiki_lingua_english_en` |
| Matching.PrefixMatchIsRaw | dataset_2/flan_v2_huggingface.py:34-41 | the prefix rule does no case folding and no hyphen rewriting: `Foo` does not match `foo.json`, `foo-bar` does not match `foo_bar.json`, and `foo` matches `foo_bar.json` |
| Matching.PrefixMatchBareMark | dataset_2/flan_v2_huggingface.py:33-41 | the name `_*` has an empty prefix, so it matches every file |
| Order.Below | dataset/test_2.py:39 | Python's `<` on `str`, which `sorted` uses: code point by code point, and a proper prefix comes first |
| Order.BelowIff | dataset/test_2.py:39 | `a < b` exactly when `a` is a proper prefix of `b`, or `a` has the smaller code point at the first position where the two differ |
| Order.BelowTransitive | dataset/test_2.py:39 | Python's string order is transitive |
| Order.BelowTotal | dataset/test_2.py:39 | any two different strings are ordered one way or the other |
| Order.SortedSet | dataset/test_2.py:39 | `sorted(set(xs))` is strictly ascending and holds exactly the elements of `xs` |
| Order.SortedUnique | dataset/test_2.py:39 | two strictly ascending lists with the same elements are equal, so the sorted set is determined by its elements |
| Order.FilterSorted | dataset/test_2.py:53-68 | keeping some elements of a strictly ascending list leaves it strictly ascending |
| CsvColumn.ColumnValues | dataset/test_2.py:34-36 | the second field of every row with at least two fields, in row order; shorter rows give nothing |
| CsvColumn.ColumnValuesMembership | dataset/test_2.py:34-36 | a value is collected exactly when some row of at least two fields has it as its second field |
| CsvColumn.SourceNames | dataset/test_2.py:29-39 | the script stops at `next(reader)` exactly when the CSV has no row; otherwise the candidates are strictly ascending and each is a collected value |
| CsvColumn.SourceNamesComplete | dataset/test_2.py:29-39 | every collected value is a candidate, and the candidate list is the only strictly ascending list of exactly those values |
| CsvColumn.SourceNamesSkipsHeader | dataset/test_2.py:32 | the header row never affects the candidates |
| MatchLog.Assign | dataset/test_1.py:56 | `d[k] = vs` appends a new key and keeps an existing key in its place; `k` then holds `vs`; every other item is unchanged; keys stay distinct |
| MatchLog.AssignSame | dataset/test_1.py:53-56 | assigning a key the list it already holds leaves the dict unchanged |
| MatchLog.AssignOtherKey | dataset_2/flan_v2_huggingface.py:48-50 | assigning one key does not change whether any other key is present |
| MatchLog.AppendTo | dataset/test_1.py:68 | `d[k].append(x)` keeps the keys and extends only `k`'s list, by `x` at its end |
| MatchLog.AppendAfterAssign | dataset/test_1.py:56-71 | appending to a freshly assigned list is the same as assigning the longer list |
| MatchLog.TotalMatches | dataset/test_1.py:86-88 | `total_matched_count`: the number of stored matches summed over all entries |
| MatchLog.TotalMatchesSnoc | dataset/test_1.py:86-88 | one more report entry adds its number of matches to the total |
| MatchLog.Summarize | dataset/test_1.py:80-92 | the report loop's `total_matched_count` is the sum of the list lengths; `matched_count` counts keys with matches; `unmatched_count` counts keys without; matched plus unmatched is the number of keys |
| Reconcile.CompareKey | dataset/test_2.py:60-67 | the form of a candidate the loose rule tests: normalised in test_1 and test_3 (test_1.py:59-60), only lower-cased in test_2 |
| Reconcile.StoredName | dataset/test_1.py:68-71 | the form of a candidate that is appended: the normalised candidate in test_1 and test_3, the original candidate in test_2 (test_2.py:61, 68) |
| Reconcile.Matches | dataset/test_1.py:58-71 | a base never gets more matches than there are candidates |
| Reconcile.MatchesMembership | dataset/test_3.py:62-75 | a name is in a base's list exactly when some candidate passes the loose rule and is stored as that name |
| Reconcile.MatchesNormalizedFilter | dataset/test_3.py:62-75 | in test_1 and test_3, a base's list is the in-order filter, by the loose rule, of the normalised candidate list |
| Reconcile.MatchesLowercasedFilter | dataset/test_2.py:53-68 | in test_2, a base's list is the in-order filter of the original candidates, tested on their lower-cased form |
| Reconcile.MatchesLowercasedSorted | dataset/test_2.py:53-68 | over a strictly ascending candidate list, test_2's match lists are strictly ascending and duplicate-free |
| Reconcile.MatchesNormalizedClean | dataset/test_1.py:59-71 | every match test_1 and test_3 store is lower-case and hyphen-free |
| Reconcile.BuildLog | dataset/test_1.py:53-71 | the dict never has more keys than there are base names |
| Reconcile.BuildLogEntries | dataset/test_3.py:57-75 | no key occurs twice, and every key holds exactly its own match list |
| Reconcile.BuildLogKeys | dataset/test_3.py:57-60 | the keys are exactly the normalised base names |
| Reconcile.BuildLogRepeat | dataset/test_1.py:53-56 | a base whose normal form is already a key leaves the dict unchanged |
| Reconcile.BuildLogNew | dataset/test_1.py:53-56 | a base with a new normal form adds one entry, at the end, holding its matches |
| Reconcile.BuildLogSize | dataset/test_1.py:80-92 | the report has one entry per distinct normalised base name, so matched plus unmatched is that number |
| Reconcile.RunMatching | dataset/test_1.py:53-71 | the nested loop, written statement by statement, builds the log of the functional model |
| Reconcile.MatchBase | dataset/test_1.py:54-71 | one pass of the outer loop, with its inner loop of appends, adds the next base to the functional log |
| FlanV2.Step | dataset_2/flan_v2_huggingface.py:30-52 | one pass of the outer loop: the name's matches go under the name in the starred or the plain partition, or the name goes to `invalid_targets`; `file_counter` grows by the number of matches |
| FlanV2.Validate | dataset_2/flan_v2_huggingface.py:21-52 | `validate_targets` after the listing: the passes of `Step` over the names in order, from empty partitions and a zero counter; the `Validate*` lemmas state its contents |
| FlanV2.FileMatches | dataset_2/flan_v2_huggingface.py:39-43 | a file is matched exactly when it is in the listing and starts with the name's prefix |
| FlanV2.ScanFiles | dataset_2/flan_v2_huggingface.py:39-43 | the inner loop collects exactly the functional match list and adds its length to `file_counter` |
| FlanV2.FileMatchesOrder | dataset_2/flan_v2_huggingface.py:40-42 | matches keep the listing's order: matching two listings joined gives the first's matches, then the second's |
| FlanV2.ValidateStarred | dataset_2/flan_v2_huggingface.py:45-48 | every key of `valid_targets_1` holds a `*` and exactly its matching files, which are never none; no key repeats |
| FlanV2.ValidatePlain | dataset_2/flan_v2_huggingface.py:49-50 | every key of `valid_targets_2` holds no `*` and exactly its matching files, which are never none; no key repeats |
| FlanV2.ValidateInvalid | dataset_2/flan_v2_huggingface.py:51-52 | `invalid_targets` lists, in order and once per occurrence, exactly the names that match no file |
| FlanV2.ValidateCounter | dataset_2/flan_v2_huggingface.py:40-43 | `file_counter` is the number of matching files summed over all processed names, repeats included |
| FlanV2.ValidateKeys | dataset_2/flan_v2_huggingface.py:30-52 | a name is a key of the starred (plain) partition exactly when it was processed, holds (lacks) a `*` and matches some file |
| FlanV2.ValidateMatchedCount | dataset_2/flan_v2_huggingface.py:58 | with distinct names, the two partitions together have one key per name that matches a file |
| FlanV2.ValidateTotals | dataset_2/flan_v2_huggingface.py:57-59 | with distinct names, valid plus invalid equals the number of processed names |
| FlanV2.RepeatedNameCounts | dataset_2/flan_v2_huggingface.py:57-60 | without distinct names that identity fails: a repeated matching name gives one key but counts its files twice; a repeated failing name is listed invalid twice, which keeps the identity |
| FlanV2.ValidateTargets | dataset_2/flan_v2_huggingface.py:30-52 | the loop of `validate_targets`, written statement by statement, computes the functional model's partitions, invalid list and counter |
| Scripts.Test1 | dataset/test_1.py:41-71 | test_1's main block: the loaded names against the registry, both normalised, under the loose rule |
| Scripts.Test1Keys | dataset/test_1.py:41-56 | test_1's report has distinct keys, and they are exactly the normalised names of the list file |
| Scripts.Test1Entry | dataset/test_1.py:53-71 | each of test_1's lists is the in-order filter of the normalised registry, and every stored match is lower-case and hyphen-free |
| Scripts.Test2 | dataset/test_2.py:25-68 | test_2's main block: it stops at `next(reader)` on a CSV with no row; otherwise the loaded names are matched against the sorted distinct manifest names, lower-cased only for the test |
| Scripts.Test2Report | dataset/test_2.py:29-68 | test_2 stops exactly on an empty CSV; otherwise no key holds a hyphen, so the branch printing one is dead; every list is ascending, duplicate-free and taken unchanged from the manifest column |
| Scripts.Test3 | dataset/test_3.py:46-75 | test_3's main block: the one hard-coded base against the normalised registry |
| Scripts.Test3Report | dataset/test_3.py:46-75 | test_3's report has the one hard-coded key, and every registered task whose normal form starts with `wiki_` is among its matches |
| Scripts.WikiLinguaScenario | dataset/test_3.py:57-75 | the base `Wiki-Lingua_English_EN` against the registry `[wiki_lingua_english_en_v2]` gives one key holding that one task |
| Scripts.FlanRun | dataset_2/flan_v2_huggingface.py:127-130 | the flan_v2 main block up to the downloads: the loaded names validated against the listing |
| Scripts.FlanRunKeys | dataset_2/flan_v2_huggingface.py:127-130 | every key of either partition is a name from the list file, used as loaded |

## Left out

- `download_datasets`: it downloads files over the network, writes them to disk and catches every exception. None of that is name logic.
- The broad `except` in `validate_targets`: it covers the listing, the whole matching loop and the report write. On any exception it prints the error and returns `{}`. The main block then unpacks that into two names, which raises, so a failed listing ends the script. The model has no exceptions: the listing is a parameter, and the matching loop cannot fail.
- `models/llama.py`: it wraps model inference and has nothing to do with name reconciliation.
- File reads and writes, `os.makedirs` and the report text: the loader takes the file content as a string, and the report is modelled by its counters only.
- `seqio.TaskRegistry.names()`, `csv.reader` and `list_repo_files`: these are foreign calls. Their results are parameters: the registry and the listing as string sequences, the CSV as already-split rows.
- Text.Strip: only ASCII whitespace is stripped. Python's `str.strip` also strips Unicode spaces.
- Text.Lower, Text.Normalize: only ASCII letters are lower-cased. Python's `str.lower` also folds other alphabets.
- Loader.LoadNames: the content is the text that text-mode `f.read()` returns, after Python's newline translation. A lone `\r` or a `\r\n` in the file becomes `\n` before the split. Raw file bytes with a lone `\r` would keep it inside a name.
- Loader.SplitFields: `re.split` is modelled as a split on its two literal separator characters; the regular-expression engine is not modelled.
- Reconcile.Matches: its own contract only bounds the list's length. Its contents are stated by `Reconcile.MatchesMembership` and the two filter lemmas.
- Printing (`print`, `flush=True`) is not modelled. Several prints show values computed from the data: the counts, the first ten names, the totals and the success rate. Their values are the lengths and counters the model computes. The only print guarded by a data-dependent condition inside the modelled loops is test_2's hyphen print, and `Scripts.Test2Report` shows it never fires.
- MatchLog.AppendTo: it requires the key to be present. The `KeyError` Python would raise otherwise is not modelled, because every script assigns the key before appending to it.
