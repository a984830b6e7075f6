# Seq2SeqDatasetBase — a Dafny model of its vocabulary and caption-index bookkeeping

`Seq2SeqDatasetBase` (IDGDataset.py) is the dataset class of an image-captioning
data loader built on Chainer. Its constructor loads a decoded dataset
(a list of captions and a list of images) and a vocabulary `word_ids`
(index -> token). It then derives two maps:

- `cap2img`, from each caption index to its image index;
- `inv_word_ids`, the inverse vocabulary (token -> index).

It also checks that the image or feature directory is there. Afterwards it
converts token lists to index lists and back, and reports its length.

The model is pure, like the source: the object's fields are assigned once in
`__init__` and never change. So the object is an immutable datatype,
`IdgDataset.Seq2SeqDataset`, holding the loaded captions, images and
vocabulary and the counts `num_captions` and `num_images`. The maps
`__init__` derives (`cap2img`, `inv_word_ids`) are its member functions. The
constructor is a function, `IdgDataset.Init`, that returns the dataset or the
exception the source raises.

- `wrappers.dfy`, module `Wrappers`: `Option` and `Result`.
- `dicts.dfy`, module `Dicts`: a Python `dict` as the list of its items in
  insertion order (`seq<(K, V)>`).
  - `Get` is `d[k]`: the value of the last item with key `k`; `None` stands for KeyError.
  - `Set` is `d[k] = v`: a key already present keeps its position, a new key goes last.
  - `FromPairs` is a dict comprehension. It assigns the pairs in list order.
  - `Invert` is `{v: k for k, v in d.items()}`.
  - `GetAll` is `[d[k] for k in ks]`.
  - Last writer wins, and the order of the resulting keys, are both stated and proved here.
- `idg_dataset.dfy`, module `IdgDataset`:
  - the suffix dispatch of `load_data`, with pathlib's `suffix` rule;
  - the constructor, with its checks in the source's order;
  - `__len__`, `token2index` and `index2token`;
  - the properties of a constructed dataset.

The file system and the pickle/JSON decoders are inputs to the model. `Disk`
holds the existence and is-a-directory answers. `DecodedDataset` and the
decoded vocabulary hold what the decoders return.

## Model

| member | source | states |
|---|---|---|
| `Dicts.Get` | IDGDataset.py:109-113 | a lookup succeeds exactly for the dict's keys and yields the value of an item with that key that no later item overrides |
| `Dicts.GetLast` | IDGDataset.py:56-61 | the last item carrying a key is what a lookup of that key finds (last writer wins) |
| `Dicts.Set` | IDGDataset.py:56-61 | assigning `d[k] = v` keeps keys distinct, adds `k` to the keys, makes `k` map to `v`, leaves every other key's value alone; an existing key keeps its position, a new one is appended |
| `Dicts.FromPairs` | IDGDataset.py:56-58 | a dict comprehension has distinct keys, exactly the keys of its pairs, each looking up to the value of its last pair, and keeps the keys in the order of their first pair |
| `Dicts.Invert` | IDGDataset.py:59-61 | the inverted dict's keys are exactly the original's values; each value maps to the key of the last item holding it; keys are ordered by first appearance |
| `Dicts.GetAll` | IDGDataset.py:109-113 | a list of lookups succeeds iff every key is present, then has one value per key, in order, each the key's value; otherwise it raises the first missing key |
| `Dicts.LastValueIndex` | IDGDataset.py:59-61 | every value of a dict has a last item holding it, the one the inverse keeps |
| `Dicts.RoundTripValues` | IDGDataset.py:109-113 | on any dict (distinct keys, shared values allowed), looking values up in the inverse and the found keys up in the dict gives back the values |
| `Dicts.RoundTripKeys` | IDGDataset.py:109-113 | on an injective dict, looking keys up in the dict and the found values up in the inverse gives back the keys |
| `Dicts.SharedValueBreaksRoundTrip` | IDGDataset.py:59-61 | with two indices sharing a token, the inverse maps the token to the later index, so the round trip from indices fails (the one from tokens still holds) |
| `IdgDataset.LastDot` | IDGDataset.py:92 | the position of the last dot: a dot, with no dot after it, or -1 when there is none |
| `IdgDataset.Suffix` | IDGDataset.py:91-92 | a file's suffix is empty or a proper tail of its name that starts with its only dot and has at least one character after it |
| `IdgDataset.SuffixIff` | IDGDataset.py:91-92 | a name has a given dotted extension as its suffix iff it ends with it after a non-empty stem |
| `IdgDataset.LoadData` | IDGDataset.py:89-104 | the pickle decoder iff the suffix is exactly '.pickle', the JSON decoder iff it is exactly '.json', TypeError naming the path otherwise |
| `IdgDataset.LoadDataByName` | IDGDataset.py:90-102 | the same decision on the file name: '.pickle' or '.json' after a non-empty stem; every other name, including a bare '.pickle' and an empty suffix, raises TypeError |
| `IdgDataset.CaptionPairs` | IDGDataset.py:56-58 | either every caption has both indices and the pairs are their (caption_idx, img_idx) in order, or the KeyError names the key missing from the first caption that lacks one, caption_idx first |
| `IdgDataset.CaptionPairsDict` | IDGDataset.py:56-58 | the dict built from the caption pairs has exactly the captions' caption indices as keys, each mapped to the image index of the last caption carrying it |
| `IdgDataset.Seq2SeqDataset.Len` | IDGDataset.py:82-83 | on a constructed dataset, `__len__` equals the stored `num_captions` |
| `IdgDataset.Seq2SeqDataset.Cap2Img` | IDGDataset.py:56-58 | `cap2img` has distinct keys, exactly the caption indices of the captions, and each maps to the `img_idx` of the last caption in list order carrying that `caption_idx` |
| `IdgDataset.Seq2SeqDataset.InvWordIds` | IDGDataset.py:59-61 | the keys of `inv_word_ids` are exactly the vocabulary's tokens, and each maps to the last index in iteration order holding it |
| `IdgDataset.Seq2SeqDataset.Token2Index` | IDGDataset.py:109-110 | one index per token, element i being `inv_word_ids[tokens[i]]`; succeeds iff every token is a vocabulary value; otherwise KeyError on the first token that is not |
| `IdgDataset.Seq2SeqDataset.Index2Token` | IDGDataset.py:112-113 | one token per index, element i being `word_ids[indices[i]]`; succeeds iff every index is a vocabulary key; otherwise KeyError on the first unknown index |
| `IdgDataset.Init` | IDGDataset.py:35-71 | FileNotFoundError when either input file is missing; when both exist, TypeError for an unknown dataset suffix before any later check; succeeds iff the files exist, both suffixes are known, 'captions' and 'images' are present, every caption has both indices and the directory in use is an existing directory; otherwise TypeError for an unknown vocabulary suffix, then KeyError('captions'), KeyError('images'), KeyError naming the key missing from the first caption lacking one, then FileNotFoundError from the directory guard, each under the checks before it; a result keeps the loaded captions, images and vocabulary, stores their counts, has distinct vocabulary keys and every caption carries both indices (`Valid`) |
| `IdgDataset.Sizes` | IDGDataset.py:54-55 | on a constructed dataset, `num_captions` and `__len__()` are the number of decoded captions and `num_images` the number of decoded images |
| `IdgDataset.TokensRoundTrip` | IDGDataset.py:109-113 | with any vocabulary, `index2token(token2index(ts)) == ts` for tokens in the vocabulary, even when several indices share a token |
| `IdgDataset.IndicesRoundTrip` | IDGDataset.py:109-113 | with a one-to-one vocabulary, `token2index(index2token(is)) == is` for indices in the vocabulary |
| `IdgDataset.AsWrittenAcceptsRegularFile` | IDGDataset.py:66-71 | the directory guard as written passes a path that exists but is no directory, which the intended guard, used by `Init`, refuses |

## Findings

| source | as written | input that shows it | evidently intended | confidence | as-written member | corrected member |
|---|---|---|---|---|---|---|
| IDGDataset.py:66-71 | `if not root.exists() and not root.is_dir(): raise FileNotFoundError`; a directory always exists, so this raises only when the path is missing and the `is_dir` test decides nothing | `img_feature_root` (or `img_root`) naming an existing regular file: exists = true, is_dir = false; no exception is raised | raise unless the path is an existing directory (`not exists() or not is_dir()`) | medium; not executed | `IdgDataset.AsWrittenAcceptsRegularFile` | `IdgDataset.Init` |

## Left out

- Reading the files is not modelled: opening them and the pickle/JSON decoding (IDGDataset.py:94-98) are library calls. The decoded dataset and vocabulary are inputs to `Init`, and the same decoded values are used whichever decoder was chosen.
- The file-system queries `Path.exists()` and `Path.is_dir()` (IDGDataset.py:46, 66, 70) are booleans in `Disk`.
- Splitting a path string into components is not modelled: `FilePath` holds the components already split, and only the final one matters.
- `Suffix` follows the pathlib rule "from the last dot, when that dot is neither the first nor the last character of the name".
- Feature preloading with `np.load` (IDGDataset.py:73-80) is not modelled: it is I/O over a numeric array library. As written it reads `self.img_root`, which is set only when `use_img_features` is false. So preloading together with image features would raise AttributeError. That path is not modelled either.
- `ImgProcesser` and `img_mean` (IDGDataset.py:9, 64): `utils/process_image` is not part of this model.
- `load_img` (IDGDataset.py:115-123) is not modelled. It uses OpenCV reading and resizing and float32 array transposes, and it returns nothing.
- `get_raw_data` and `get_example` (IDGDataset.py:85-86, 106-107) are empty stubs.
- The Chainer `DatasetMixin` base class is not modelled; it is framework integration.
- The `dataset` attribute that keeps the whole decoded file is not modelled; only its 'captions' and 'images' entries are.
- Not modelled: Python key equality across types (`1 == 1.0 == True` as dict keys). Indices are `int` and tokens are strings. A vocabulary decoded from JSON has string keys, and that is not modelled either.
- `IdgDataset.LoadData`: the TypeError carries the path, not the text of its message.
- `IdgDataset.Init`: uses the intended directory guard (see Findings). With the guard as written, a regular file in place of the directory would be accepted.
