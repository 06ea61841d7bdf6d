# Noise model and embedding replacement of sockeye-transfer, in Dafny

This project models two parts of a neural machine translation toolkit.

The first is the noise model in `sockeye/noise.py`. It corrupts batches of
token ids to build the inputs of a denoising autoencoder. `get_noise_model`
refuses a configuration that would add no noise. `NoiseModel.apply_noise`
takes a padded batch of shape (B, L, 1) and works on each row in turn. It
strips the padding, deletes tokens, permutes them locally and inserts random
tokens. It then writes the result from index 0 and pads the rest of the row.

The second is the vocabulary and table splicing in
`sockeye/replace_embedding.py`. `convert_vocab` numbers three special tokens
followed by a loaded vocabulary. `convert_weight` puts the three
special-token rows of the old source embedding in front of the loaded
vectors. `replace_embeddings` stores the result under `source_embed_weight`.

Files:

- `wrappers.dfy`, module `Wrappers`: the `Result` type. A `Failure` is a
  raised exception of the source.
- `seqs.dfy`, module `Seqs`: `Elems` and small sequence facts used by both
  models.
- `noise.dfy`, module `Noise`: the configuration, the factory, the three
  operators, the per-row pipeline and `ApplyNoise` over an `array3<int>`.
- `replace_embedding.dfy`, module `ReplaceEmbedding`: `ConvertVocab`,
  `ConvertWeight` and the parameter-map update.

How the model is built:

- **Random draws are inputs.** Deletion takes its `np.random.rand` draws as
  reals. A token is kept when its draw is strictly greater than
  `config.deletion`. The permutation takes its `np.random.randint` offsets,
  each in `[0, config.permutation]`. Insertion takes its `np.random.rand`
  draws and fires where a draw is at most `config.insertion`. It also takes
  one drawn id per position, and reads that id only where an insertion
  fires. `RowDraws` holds one row's draws.
- **One selection function.** `np.take(s, mask.nonzero())` appears twice:
  once to strip PAD and once to delete. Both are `Select`.
- **Sort order.** `IsArgsort` describes any valid result of `np.argsort`,
  whatever its tie order. `PermutationAnyOrder` proves the multiset, the
  displacement bound and the identity for a zero window for every such
  order. `Argsort` is one such order, a stable insertion sort. `Permutation`,
  and through it `NoisedContent`, `NoiseRow` and `ApplyNoise`, use that
  stable order.
- **Insertion is a loop.** `Insertion` is a method with the source's
  `offset` counter, the insertion into the sequence and the early `break`.
  It is proved equal to `Inserted`. `Inserted` splices one new token before
  each position whose insertion fires (`Splice`). The firing positions are
  the flagged positions up to the `Room` the row has left (`Fired`).
- **The batch is an array.** `ApplyNoise` fills a fresh `array3<int>` row by
  row. `NoiseRow` is the pipeline on one row. `WriteRow` writes the content
  from index 0 and then PAD. A batch whose trailing dimension is not 1
  gives `Failure`.
- **Constants of the constants module.** `C.PAD_ID` is `PAD_ID = 0`, which
  the strip by `nonzero()` relies on. `len(C.VOCAB_SYMBOLS)` is the
  parameter `reserved`. The no-PAD results require `reserved >= 1`.

## Model

| member | source | states |
|---|---|---|
| `Noise.GetNoiseModel` | sockeye/noise.py:24-29 | Fails exactly when permutation < 1, deletion <= 0 and (insertion <= 0 or insertion_vocab < 1). Otherwise returns a model holding the given config. |
| `Noise.RejectedConfigAddsNoNoise` | sockeye/noise.py:25-27 | For a refused configuration, the pipeline returns every row's stripped content unchanged, given strictly positive deletion and insertion draws that the source can produce without raising. This is what the error message claims. |
| `Noise.Select` | sockeye/noise.py:80 | `np.take(s, mask.nonzero())` has exactly Count(mask) entries. `SelectAt` and `SelectFrom` carry which entries they are. |
| `Noise.SelectAt` | sockeye/noise.py:80 | `np.take(s, mask.nonzero())` has Count(mask) entries. A flagged entry i sits at index Count(mask[..i]), so the flagged entries keep their order. |
| `Noise.SelectFrom` | sockeye/noise.py:80 | Every entry of a selection is a flagged entry of the input. |
| `Noise.Strip` | sockeye/noise.py:55 | The stripped row is no longer than the row. `StripHasNoPad` and `StripPadded` carry what it holds. |
| `Noise.StripHasNoPad` | sockeye/noise.py:55 | The stripped row holds no PAD, and each of its entries comes from the row. |
| `Noise.StripPadded` | sockeye/noise.py:55 | Stripping content followed by PAD gives the content back when the content holds no PAD. The padded row has length L. |
| `Noise.Deletion` | sockeye/noise.py:77-81 | Deletion never lengthens the sentence. `DeletionKeepsFlagged` carries which tokens it keeps. |
| `Noise.DeletionKeepsFlagged` | sockeye/noise.py:77-81 | Deletion returns exactly the tokens whose draw is > p, in original order. It returns Count(keep) of them, between 0 and n. |
| `Noise.DeletionKeepsNoPad` | sockeye/noise.py:77-81 | Deletion of a PAD-free sequence is PAD-free. |
| `Noise.SortKeys` | sockeye/noise.py:73 | One sort key per position. |
| `Noise.Take` | sockeye/noise.py:74 | `np.take(s, idx)` has one entry per index. `TakePositionList` carries the multiset. |
| `Noise.Permutation` | sockeye/noise.py:70-75 | The permutation keeps the sentence length. `PermutationRearranges`, `PermutationDisplacement` and `PermutationZeroIsIdentity` carry the rest. |
| `Noise.Argsort` | sockeye/noise.py:74 | The order lists every position exactly once, in non-decreasing order of key. |
| `Noise.PermutationRearranges` | sockeye/noise.py:70-75 | The output is the input taken in an argsort order of the keys i + offset[i]. It has the same length and the same multiset of tokens. |
| `Noise.TakePositionList` | sockeye/noise.py:74 | Taking s in the order of any list that holds each of its positions once keeps the multiset of s. |
| `Noise.PermutationAnyOrder` | sockeye/noise.py:70-75 | For every order `np.argsort` may return, ties broken in any way: the tokens keep their multiset, none moves more than config.permutation places, and permutation = 0 gives the input back. |
| `Noise.DisplacementBound` | sockeye/noise.py:72-74 | In any argsort of keys with i <= key[i] <= i + window, the position landing at index j came from at most window places away. |
| `Noise.PermutationDisplacement` | sockeye/noise.py:70-75 | No token of the permutation ends up more than config.permutation positions from its original index. |
| `Noise.PermutationZeroIsIdentity` | sockeye/noise.py:72-74 | With permutation = 0 the permutation returns its input unchanged. |
| `Noise.PermutationKeepsNoPad` | sockeye/noise.py:70-75 | Permuting a PAD-free sequence gives a PAD-free sequence. |
| `Noise.Room` | sockeye/noise.py:85-97 | No insertion when the length already equals L. Otherwise the least number k >= 1 of insertions after which length + k >= L, where the scan breaks. |
| `Noise.Fired` | sockeye/noise.py:88-97 | One entry per position. An insertion fires only where it is flagged. `FiredCount` carries how many fire. |
| `Noise.FiredCount` | sockeye/noise.py:89-97 | Insertions fire at flagged positions until the room runs out. The number that fire is min(flags counted, room). |
| `Noise.Insertion` | sockeye/noise.py:83-98 | The scan with the running offset and the early break returns `Inserted`. That is the input with one drawn id + reserved before each position whose insertion fires. |
| `Noise.Inserted` | sockeye/noise.py:83-98 | The result is the input plus one token per fired insertion. `InsertedLength`, `InsertedOnlyAdds` and `InsertedPlacement` carry the rest. |
| `Noise.InsertedLength` | sockeye/noise.py:84-97 | Unchanged when the length already equals L. Never longer than L when it starts at most L long. Adds at most Room(n, L) tokens. |
| `Noise.InsertedOnlyAdds` | sockeye/noise.py:88-95 | Removing the inserted tokens gives back the input in order. Each inserted id lies in [reserved, reserved + insertion_vocab). The other tokens come from the input. |
| `Noise.InsertedPlacement` | sockeye/noise.py:90-95 | Original token i sits at i + (insertions at or before i). A token inserted for position i sits immediately before it. |
| `Noise.InsertedKeepsNoPad` | sockeye/noise.py:94 | Insertion into a PAD-free sequence is PAD-free when the reserved block has at least one id. |
| `Noise.NoisedContent` | sockeye/noise.py:54-58 | A row's noised content is no longer than the row. `NoisedContentHasNoPad` and `NoisedRowLayout` carry the rest. |
| `Noise.NoiseRow` | sockeye/noise.py:54-58 | Strip, deletion, permutation and insertion on one row give `NoisedContent`. |
| `Noise.WriteRow` | sockeye/noise.py:60-66 | Row b holds the sentence from index 0 and PAD after it. No other row changes. |
| `Noise.ApplyNoise` | sockeye/noise.py:36-68 | Fails exactly when the trailing dimension is not 1. Otherwise returns a fresh batch of the same (B, L, 1) shape. Entry (b, j) is the j-th token of row b's noised content, or PAD past its end. |
| `Noise.NoisedContentHasNoPad` | sockeye/noise.py:55-58 | A row's noised content holds no PAD. |
| `Noise.NoisedRowLayout` | sockeye/noise.py:60-66 | A row's noised content has at most L tokens and no PAD. The output row is that content followed by PAD to length L. Stripping the output row gives the content back. |
| `ReplaceEmbedding.Enumerate` | sockeye/replace_embedding.py:33 | The dict comprehension over enumerate has keys exactly the listed words. Each word maps to a position where it occurs. |
| `ReplaceEmbedding.EnumerateLastOccurrence` | sockeye/replace_embedding.py:33 | A word maps to position i exactly when i is its last occurrence, because later entries overwrite earlier ones. |
| `ReplaceEmbedding.ConvertVocab` | sockeye/replace_embedding.py:27-34 | The keys are the three special tokens and the vocabulary words. Every id lies in [0, len(vocab) + 3). |
| `ReplaceEmbedding.ConvertVocabSize` | sockeye/replace_embedding.py:32-33 | The map has at most len(vocab) + 3 entries. |
| `ReplaceEmbedding.ConvertVocabWord` | sockeye/replace_embedding.py:32-33 | Vocabulary word i gets id i + 3 exactly when index i is its last occurrence in the vocabulary. |
| `ReplaceEmbedding.ConvertVocabSpecial` | sockeye/replace_embedding.py:32-33 | A special token that the vocabulary does not repeat keeps its id: `<pad>` 0, `<unk>` 1, `<s>` 2. |
| `ReplaceEmbedding.Head3` | sockeye/replace_embedding.py:44 | `rows[:3]`: the first min(3, len(rows)) rows, in order. |
| `ReplaceEmbedding.ConvertWeight` | sockeye/replace_embedding.py:37-46 | Fails exactly when `source_embed_weight` is missing. Otherwise returns the old table's first min(3, rows) rows followed by the new rows in order. |
| `ReplaceEmbedding.ConvertWeightRows` | sockeye/replace_embedding.py:43-44 | Given an old table of at least 3 rows, returns 3 + rows(weight) rows: the old first 3 rows, then weight in order. |
| `ReplaceEmbedding.LookupAgrees` | sockeye/replace_embedding.py:27-46 | Looking a word up through the new vocabulary gives the vector loaded with its last occurrence. A special token not repeated by the vocabulary gets its old row. |
| `ReplaceEmbedding.ReplaceSourceEmbedding` | sockeye/replace_embedding.py:63-65 | Only the `source_embed_weight` entry changes, to the converted table. The keys stay the same and every other entry is unchanged. |

## Left out

- Random number generation is not modelled: every draw is an input (see above). The draws are not restricted to [0, 1).
- Float thresholds are not modelled as floats: the probabilities and draws are reals, and only the comparisons `>` (deletion) and `<=` (insertion) are kept.
- The mxnet/numpy conversions (`asnumpy`, `mx.nd.array`) are not modelled. `ApplyNoise` fills a freshly allocated array instead of the host copy. Every cell of a row is overwritten, so the copy's old contents never show in the result.
- Token ids are unbounded integers. The source holds them in the batch's numeric dtype, which is float32 by default in mxnet.
- Sort stability: `np.argsort` defaults to an unstable sort, so its tie order is unspecified. `Permutation` uses the stable `Argsort`, so `Permutation`, `NoisedContent`, `NoiseRow` and `ApplyNoise` assume a stable `np.argsort`. Only `PermutationAnyOrder`, `TakePositionList` and `DisplacementBound` hold for every tie order.
- `NoiseModelConfig.permutation` and `insertion_vocab` are natural numbers. Negative values make `np.random.randint` raise and are not modelled.
- `NoiseModelConfig.__init__` annotates `permutation` as `str`, but the code compares it with 1 and adds 1 to it, so it is an integer. `NoiseModelConfig.permutation` follows the code.
- Noise.Insertion: requires the drawn ids to be in [0, insertion_vocab) where an insertion fires. This stands for `np.random.randint(0, 0)` raising when insertion_vocab is 0 and an insertion fires.
- Noise.ApplyNoise: requires the drawn ids to be in range at every flagged position, not only where an insertion fires. A row that is already full with insertion_vocab = 0 and a set flag is therefore not covered.
- Noise.RejectedConfigAddsNoNoise: assumes every deletion and insertion draw is strictly positive. `np.random.rand` can return 0.0. Such a draw deletes a token under deletion = 0.0 and fires an insertion under insertion = 0.0. It also does not cover a refused configuration with insertion > 0 and insertion_vocab = 0 in which a draw at or below insertion fires on a row with room left. There the source raises in `np.random.randint(0, 0)`. `DrawsFor` excludes such draws, so the lemma covers only the draws under which the source returns.
- The `config.Config` base class is not modelled (serialisation, freezing).
- `load_vec` is not modelled: it reads files with `np.loadtxt`.
- `vocab_to_json`, `utils.load_params` and `utils.save_params` are not modelled: they are file I/O.
- The output path naming, `argparse`, `main` and logging in `replace_embedding.py` are not modelled.
- ReplaceEmbedding.ConvertWeight: rows are of a generic type, so the column-count check of `np.concatenate` is not modelled.
- The key order of Python dictionaries is not modelled: maps have none.
- `convert_vocab` is annotated as returning `Dict[int, str]`, but its code builds a map from word to id. `ConvertVocab` follows the code.
