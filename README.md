# Protein-language-model utilities: a Dafny model of the sequential core

The repository is a set of scripts around the ESM-2 protein language model. This
project models the five pieces that contain exact sequential logic. It proves
what each one computes.

- **Edit distance** (`src/utils.py`). `Levenshtein.Lev` is the Levenshtein
  distance. It uses the Wagner–Fischer recurrence on the last characters: equal
  last characters cost nothing, otherwise one edit plus the cheapest of
  substitution, insertion and deletion. `LevenshteinDistance` is the source's
  two-row dynamic program. It swaps so that the shorter string indexes the row,
  then rebuilds the row once per character of the longer string. Its loop
  invariants tie every cell to `Lev` of two prefixes.
- **Detokenisation** (`PLMs/src/esm_model.py`). The language-model head, the
  argmax over logits and the id-to-token lookup are one abstract function
  `head`. It maps the embedding of one batch row to that row's token list.
  `RemoveSpecialTokens` drops `<cls>`, `<eos>` and `<pad>`. `Detokenize` joins
  what remains. `Decode` takes batch row 0, and `BatchDecode` loops over all
  rows.
- **AMP histogram** (`PLMs/src/Ranking-AMPS.py`). The file is a list of lines.
  Python's `float(...)` is an abstract partial parse `parseFloat`. `str.split()`,
  `str.split('_')` and `int(...)` on ASCII digits are modelled in module
  `Text`, including `int`'s default cap of 4300 digits.
  `AcceptedLength` says which length, if any, one line contributes.
  `AmpHistogram` is the counting loop over a dictionary, followed by the sort.
- **Ancestral-reconstruction tables** (`src/fireprot_asr_analysis.py`). The CSV
  is a `Table`: amino-acid column labels plus rows of `(node, position, '-',
  cells…)`. A cell is a real probability or `'-'`. The model covers the
  selections by node and by (node, position), the first-maximum `idxmax`, and
  the `'-'`→0 replacement. It also covers the three queries
  (`find_most_probable_amino_acid`, `masked_amino_acids`, `get_node_sequence`)
  and the data behind the two plots. When a threshold is given but `stop` cuts off every row,
  `plot_most_probable_amino_acids` divides by zero. The model returns this as
  the `ZeroDivision` outcome.
- **Interpolation** (`PLMs/src/interpolations.py`). An embedding tensor is its
  components, flattened, as reals. `LinearInterpolation` is the componentwise
  blend. `DecodeInterpolations` decodes each embedding as a batch of one.

## Model

| member | source | states |
|---|---|---|
| `Levenshtein.LevenshteinDistance` | src/utils.py:4-17 | returns exactly the Levenshtein distance `Lev(s1, s2)`, whichever argument is longer; the loop keeps the row at length `len(s1)+1`, its first entry equal to the number of characters of `s2` consumed, and every entry equal to the distance between the matching prefixes |
| `Levenshtein.Lev` | src/utils.py:4-17 | the defining function of the distance (Wagner–Fischer recurrence on the last characters); never more than the longer string's length |
| `Levenshtein.NextRow` | src/utils.py:10-15 | from the costs of every prefix of `s1` against the first `k` characters of `s2`, builds the costs against the first `k + 1`; entry 0 is `k + 1` |
| `Levenshtein.Min3` | src/utils.py:15 | the result is one of the three arguments and no larger than any of them |
| `Levenshtein.LevStep` | src/utils.py:11-15 | one row cell: the diagonal cell when the two characters match, otherwise one plus the minimum of the diagonal, upper and left cells |
| `Levenshtein.LevSymmetric` | src/utils.py:6-7 | `Lev(a, b) == Lev(b, a)`, so swapping to make `s1` the shorter string does not change the result |
| `Levenshtein.LevSelf` | src/utils.py:11-13 | every string is at distance 0 from itself |
| `Levenshtein.LevZeroIffEqual` | src/utils.py:4-17 | the distance is 0 exactly when the strings are equal |
| `Levenshtein.LevBounds` | src/utils.py:8-17 | `abs(len(a) - len(b)) <= Lev(a, b) <= max(len(a), len(b))`; the distance to or from the empty string is the other string's length |
| `Common.Concat` | PLMs/src/esm_model.py:43 | the defining function of `"".join(parts)` (also used at esm_model.py:65 and fireprot_asr_analysis.py:173); every part fits inside the result, and all-empty parts join to `""` |
| `Common.ConcatAppend` | PLMs/src/esm_model.py:43 | `"".join(a + b) == "".join(a) + "".join(b)` |
| `Common.ConcatOfSingletons` | src/fireprot_asr_analysis.py:173 | joining one-character strings gives one character per string, in order |
| `EsmDecode.IsSpecial` | PLMs/src/esm_model.py:17 | the marker list `['<cls>', '<eos>', '<pad>']`: every marker is five characters in angle brackets, so no one-letter amino-acid token is ever a marker |
| `EsmDecode.RemoveSpecialTokens` | PLMs/src/esm_model.py:15-17 | the output has no `<cls>`, `<eos>` or `<pad>`; a token occurs in the output exactly when it occurs in the input and is not special; the output is no longer than the input |
| `EsmDecode.RemoveAppend` | PLMs/src/esm_model.py:17 | the filter distributes over list concatenation; with the one-token case this makes it exactly the order-preserving filter |
| `EsmDecode.RemoveCounts` | PLMs/src/esm_model.py:17 | each non-special token is kept as many times as it occurs; special tokens are kept zero times |
| `EsmDecode.RemoveUnchanged` | PLMs/src/esm_model.py:17 | a token list without special tokens is returned unchanged |
| `EsmDecode.RemoveIdempotent` | PLMs/src/esm_model.py:17 | filtering twice equals filtering once |
| `EsmDecode.Detokenize` | PLMs/src/esm_model.py:42-43 | the defining function of one row's text (drop the markers, join the rest); a row of markers only decodes to `""` |
| `EsmDecode.DetokenizeSplit` | PLMs/src/esm_model.py:41-43 | a special token anywhere in a row adds nothing to the decoded text; any other token adds itself at its own place |
| `EsmDecode.DetokenizeExample` | PLMs/src/esm_model.py:41-43 | the row `<cls> M K <eos>` decodes to `"MK"` |
| `EsmDecode.Decode` | PLMs/src/esm_model.py:37-44 | returns nothing exactly for an empty batch (where the source's `[0]` fails); otherwise returns the filtered and joined tokens of batch row 0 |
| `EsmDecode.BatchDecode` | PLMs/src/esm_model.py:56-67 | one string per batch row, in row order; each is the filtered and joined tokens of its row; entry 0 equals what `Decode` returns |
| `Interpolations.LinearInterpolation` | PLMs/src/interpolations.py:4-6 | the blend has the length of its equal-length inputs |
| `Interpolations.LinearEndpoints` | PLMs/src/interpolations.py:6 | weight 1 returns `e1`; weight 0 returns `e2` |
| `Interpolations.LinearSelf` | PLMs/src/interpolations.py:6 | interpolating an embedding with itself returns it, for any weight |
| `Interpolations.LinearSwap` | PLMs/src/interpolations.py:6 | `lin(e1, e2, λ) == lin(e2, e1, 1 - λ)` |
| `Interpolations.LinearBetween` | PLMs/src/interpolations.py:6 | for λ in [0, 1], every component lies between the two endpoint components |
| `Interpolations.DecodeInterpolations` | PLMs/src/interpolations.py:17-28 | one decoded sequence per embedding, in input order; element `i` is row 0 of decoding embedding `i` as a batch of one, that is, the filtered and joined tokens of embedding `i` |
| `Text.IsBlank` | PLMs/src/Ranking-AMPS.py:29 | `not line.strip()`: every character of the line is whitespace under Python's `str.isspace`; the empty line is blank |
| `Text.Words` | PLMs/src/Ranking-AMPS.py:32 | every field of `str.split()` is non-empty and has no whitespace |
| `Text.WordsEmptyIffBlank` | PLMs/src/Ranking-AMPS.py:29-33 | a line splits into no fields exactly when `line.strip()` is empty |
| `Text.WordsOfRecord3` | PLMs/src/Ranking-AMPS.py:11-16 | a tab-separated line of three whitespace-free fields splits back into those three fields |
| `Text.SplitOn` | PLMs/src/Ranking-AMPS.py:44 | `s.split(sep)` has at least one piece and no piece contains `sep` |
| `Text.JoinSplit` | PLMs/src/Ranking-AMPS.py:44 | `sep.join(s.split(sep)) == s` |
| `Text.SplitJoin` | PLMs/src/Ranking-AMPS.py:44-46 | `sep.join(fields).split(sep) == fields` when no field contains `sep` |
| `Text.ParseInt` | PLMs/src/Ranking-AMPS.py:48 | the defining function of `int(s)`: an optional sign and 1 to 4300 ASCII digits, anything else `None` (`ValueError`); an accepted string has at most 4301 characters, and a 4301-character one starts with a sign |
| `Text.ParseShowInt` | PLMs/src/Ranking-AMPS.py:47-48 | `int(str(n)) == n` for every integer `n` of at most 4300 digits, negative included; longer ones are refused |
| `AmpRanking.AcceptedLength` | PLMs/src/Ranking-AMPS.py:28-50 | the defining function of what one line contributes; a line counts only if it is not blank, has exactly three fields and its probability parses to at least 0.5 |
| `AmpRanking.Body` | PLMs/src/Ranking-AMPS.py:25 | the header is the only line dropped, and an empty file has no body |
| `AmpRanking.AcceptedAppend` | PLMs/src/Ranking-AMPS.py:27-55 | lines are judged one at a time: the accepted lengths of two blocks of lines are those of the first block followed by those of the second |
| `AmpRanking.SkippedLineContributesNothing` | PLMs/src/Ranking-AMPS.py:28-50 | a skipped line can be removed from any position without changing what is counted. Skipped lines are blank or malformed lines, lines whose probability does not parse or is below 0.5, and lines whose ID has no integer second field |
| `AmpRanking.AcceptedRecord` | PLMs/src/Ranking-AMPS.py:35-50 | the line `LENGTH_n_SEQ_y <class> <p>` is counted under length `n` exactly when `p` parses to at least 0.5 and `n` has at most 4300 digits; the class label never affects the result |
| `AmpRanking.SortedKeys` | PLMs/src/Ranking-AMPS.py:58 | the keys in strictly ascending order, each exactly once |
| `AmpRanking.TallyOne` | PLMs/src/Ranking-AMPS.py:52-55 | `+= 1` on a present key, or inserting 1 for a new key, counts one more occurrence of exactly that key |
| `AmpRanking.SumOfCounts` | PLMs/src/Ranking-AMPS.py:52-59 | counts aligned with the distinct keys of a list of lengths add up to the length of the list |
| `AmpRanking.EmitTallies` | PLMs/src/Ranking-AMPS.py:58-59 | reading the dictionary out by sorted keys lists every counted length once, each with its number of occurrences (at least 1), and the counts add up to the number of counted lines |
| `AmpRanking.AmpHistogram` | PLMs/src/Ranking-AMPS.py:18-59 | after skipping the header: `lengths` is strictly ascending and holds exactly the lengths of the accepted lines; `counts[i]` is the number of accepted lines of length `lengths[i]` and is at least 1; the counts sum to the number of accepted lines |
| `FireProtAsr.Filled` | src/fireprot_asr_analysis.py:142 | the defining function of `.replace('-', 0).astype(float)`: same width, `'-'` read as 0 and every other cell as its probability |
| `FireProtAsr.MostProbableLabel` | src/fireprot_asr_analysis.py:90 | the defining function of the row's `idxmax` after `'-'`→0; the result is one of the column labels |
| `FireProtAsr.MostProbableLabelIsFirstMax` | src/fireprot_asr_analysis.py:89-90 | that label names a column holding the row's largest probability, and no earlier column holds it |
| `FireProtAsr.ArgMax` | src/fireprot_asr_analysis.py:63 | `idxmax`: an index holding the largest value, with every earlier value strictly smaller (the first maximum wins) |
| `FireProtAsr.RowMax` | src/fireprot_asr_analysis.py:142-143 | the row's largest probability with `'-'` read as 0: no cell exceeds it and some cell equals it |
| `FireProtAsr.NodeRows` | src/fireprot_asr_analysis.py:132 | the selected rows are exactly the table rows of that node, and there are no more of them than table rows |
| `FireProtAsr.NodeRowsCounts` | src/fireprot_asr_analysis.py:132 | each row of the node is selected as often as the table holds it; no other row is selected |
| `FireProtAsr.NodeRowsAppend` | src/fireprot_asr_analysis.py:132 | the selection keeps table order: selecting from two blocks of rows is selecting from each block in turn |
| `FireProtAsr.CellRows` | src/fireprot_asr_analysis.py:55 | the selected rows are exactly the table rows at that node and position |
| `FireProtAsr.CellRowsFirst` | src/fireprot_asr_analysis.py:55-62 | the first selected row is the first table row at that node and position |
| `FireProtAsr.FindMostProbableAminoAcid` | src/fireprot_asr_analysis.py:49-66 | for a table whose amino-acid cells are all numbers: `None` exactly when no row is at (node, position). Otherwise it returns a label and probability from the first such row. No cell of that row exceeds the probability, and the label is the first column holding it |
| `FireProtAsr.Pairs` | src/fireprot_asr_analysis.py:32 | `zip(amino_acids, probabilities)`: one pair per column, each label with the probability of the same column |
| `FireProtAsr.Positive` | src/fireprot_asr_analysis.py:33 | keeps every (label, probability) pair with probability > 0 as often as it occurs; drops all others |
| `FireProtAsr.SortByProbability` | src/fireprot_asr_analysis.py:36 | the result is ordered by non-increasing probability and is a permutation of its input |
| `FireProtAsr.DistributionView` | src/fireprot_asr_analysis.py:16-36 | `None` exactly when no row is at (node, position); otherwise the pairs of the first such row with positive probability, ordered by non-increasing probability |
| `FireProtAsr.DistributionMembers` | src/fireprot_asr_analysis.py:28-33 | each amino-acid column of the row appears in the distribution exactly once if its probability is positive, and never otherwise |
| `FireProtAsr.Masked` | src/fireprot_asr_analysis.py:138-148 | the defining function of the masked positions, one per row at most, in row order |
| `FireProtAsr.MaskedMembers` | src/fireprot_asr_analysis.py:138-148 | a position is masked exactly when some row of the node at that position has no probability above the threshold |
| `FireProtAsr.CountAbove` | src/fireprot_asr_analysis.py:98 | the green count never exceeds the number of bars |
| `FireProtAsr.GreenComplementsMasked` | src/fireprot_asr_analysis.py:97-98 | "green" (max > threshold) and masked (max ≤ threshold) split the rows: the green count plus the masked count is the row count |
| `FireProtAsr.FullLengthGreenAndMasked` | src/fireprot_asr_analysis.py:83-98 | without `stop`, every row of the node is shown, and its green bars plus its masked positions number its rows |
| `FireProtAsr.MaskedAminoAcids` | src/fireprot_asr_analysis.py:126-148 | returns, in row order, the positions of the node's rows whose largest probability is at most the threshold; returns `[]` for a node without rows |
| `FireProtAsr.GetNodeSequence` | src/fireprot_asr_analysis.py:150-173 | the first-maximum label of each of the node's rows (`'-'` read as 0), joined in row order; `""` for a node without rows; with one-letter column names, one letter per row |
| `FireProtAsr.ShownRows` | src/fireprot_asr_analysis.py:83-87 | every row before the cut is at or below `stop`, and the row at the cut, if any, is past `stop` |
| `FireProtAsr.BarColors` | src/fireprot_asr_analysis.py:97 | a bar is ForestGreen exactly when a threshold is given and the bar's probability is above it |
| `FireProtAsr.GreenBarsCounted` | src/fireprot_asr_analysis.py:97-98 | the number of ForestGreen bars equals the green count `green_count` of the same probabilities |
| `FireProtAsr.ShownBars` | src/fireprot_asr_analysis.py:83-94 | the positions, first-maximum labels and largest probabilities of exactly the rows before the first row past `stop` |
| `FireProtAsr.MostProbableAminoAcids` | src/fireprot_asr_analysis.py:68-102 | no chart for a node without rows; division by zero exactly when a threshold is given and no row is shown; otherwise one bar per shown row with its position, label, maximum and colour, and the green share `green / bars * 100` (0 without a threshold) |

## Left out

- Model loading, `encode`, `batch_encode`, `lm_head` with argmax and device placement call into torch and the pretrained model. The model keeps them only as the abstract `head` function, applied per batch row.
- EsmDecode.BatchDecode: one `head` stands for both `decode` and `batch_decode`. That holds for `ESM2` and for an `ESM2EncoderModel` without a normaliser. `ESM2EncoderModel` with a normaliser applies `denormalize` in `batch_decode` (esm_model.py:86-89) but not in `decode`, so there `decoded[0]` need not equal `decode` of the same batch. The normaliser is not modelled.
- Interpolations.DecodeInterpolations: its equality with `Decode` of a batch of one holds only under the same condition (`ESM2`, or `ESM2EncoderModel` without a normaliser). The per-element `Detokenize` result describes `batch_decode` of whichever model's `head` is given.
- `batch_decode` with `detokenized=False` returns raw logits, which are torch tensors.
- `sinusoidal_interpolation` and `arccos_interpolation` are transcendental floating-point functions (arc-cosine is NaN outside [-1, 1]), so they are not modelled.
- Embeddings and probabilities are reals, not float32 or float64. The interpolation properties hold over reals, not bit for bit.
- Interpolations.LinearInterpolation: requires equal lengths. Torch broadcasts shapes where one side has a size-1 dimension and raises `RuntimeError` for other mismatches. The model covers neither.
- `float(prob_str)` is the abstract `parseFloat`. Python's float grammar (exponents, `nan`, `inf`) is not modelled, and NaN and infinities have no real value.
- Text.ParseInt: accepts ASCII digits only. Python's `int` also accepts other Unicode decimal digits, and underscores, which cannot occur in a field split on `_`. The 4300-digit cap is Python's default since 3.11; a changed `sys.set_int_max_str_digits` setting is not modelled.
- File reading, the module-level call with its hard-coded path, `pd.read_csv`, all `print` messages and all matplotlib calls are I/O. The table is an in-memory value, and the plots are reduced to the data they draw.
- FireProtAsr.Table: the model assumes at least one amino-acid column, distinct column names and rows as wide as the header. These are modelling assumptions. `read_csv` would rename a duplicate header (`A.1`) and pad a short row with NaN. With no amino-acid column, `max()` is NaN and `masked_amino_acids` returns `[]`. None of these cases is modelled.
- FireProtAsr.FindMostProbableAminoAcid: requires every row of the table to be numeric. Line 62 converts nothing, so a `'-'` anywhere in an amino-acid column makes that column text. `idxmax` then raises `TypeError`, which the model does not represent.
- FireProtAsr.DistributionView: requires the first row at (node, position), the only one read, to contain no `'-'`. `astype(float)` on line 29 raises `ValueError` on `'-'`, which the model does not represent.
- FireProtAsr.SortByProbability: the proved contract does not state how ties are ordered. The definition keeps equal probabilities in column order, as Python's stable sort does.
- FireProtAsr.DistributionView: sorts with `SortByProbability`, so its contract does not state the order of equal probabilities either.
- The triangle inequality of the edit distance is not proved.
- `generate_random_sequence` is random. `src/visualization.py` calls UMAP and matplotlib. `PLMs/setup.py` and `src/__init__.py` only package the code.
