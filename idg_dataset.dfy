/** The dataset class of an image-captioning data loader: it loads a decoded
    dataset (captions and images) and a vocabulary (index -> token), derives
    the caption -> image map and the inverse vocabulary, and converts between
    tokens and indices.

    The file system and the pickle/JSON decoders are not modelled: what they
    answer is passed in (`Disk`, `DecodedDataset`, the decoded vocabulary).
    An exception the source raises is a `Failure` of the `Error` it raises. */
module IdgDataset {
  import opened Wrappers
  import opened Dicts

  type Index = int
  type Token = string

  /** A path as pathlib holds it: its directories, then its final component. */
  datatype FilePath = FilePath(parents: seq<string>, name: string)

  /** The two decoders `load_data` can choose. */
  datatype Format = Pickle | Json

  /** The exceptions the constructor and the lookups raise. */
  datatype Error =
    | FileNotFoundError
    | TypeError(path: FilePath)
    | KeyError(key: string)

  /** A decoded caption record: the two entries this class reads, None where
      the record lacks that key. */
  datatype Caption = Caption(captionIdx: Option<Index>, imgIdx: Option<Index>)

  /** A decoded image record; only the number of images is used here. */
  datatype Image = Image(filePath: string)

  /** The decoded dataset file: its 'captions' and 'images' entries, None where
      the file lacks that key. */
  datatype DecodedDataset = DecodedDataset(captions: Option<seq<Caption>>, images: Option<seq<Image>>)

  /** What the file system answers about the paths the constructor inspects. */
  datatype Disk = Disk(
    datasetExists: bool,
    vocabExists: bool,
    imgRootExists: bool,
    imgRootIsDir: bool,
    featureRootExists: bool,
    featureRootIsDir: bool)

  // ---------------------------------------------------------------------------
  // load_data: choosing a decoder from the file suffix
  // ---------------------------------------------------------------------------

  /** `str.rfind('.')`: the position of the last dot, -1 when there is none. */
  function LastDot(s: string): (r: int)
    ensures -1 <= r < |s|
    ensures r >= 0 ==> s[r] == '.'
    ensures forall j :: r < j < |s| ==> s[j] != '.'
  {
    if s == [] then -1
    else if s[|s| - 1] == '.' then |s| - 1
    else LastDot(s[..|s| - 1])
  }

  /** `PurePath.suffix` of a final component: from its last dot to the end,
      or empty when that dot is the first or the last character, or absent. */
  function Suffix(name: string): (r: string)
    ensures r == [] || (|r| >= 2 && |r| < |name| && r == name[|name| - |r|..] && r[0] == '.')
    ensures forall j :: 0 < j < |r| ==> r[j] != '.'
  {
    var i := LastDot(name);
    if 0 < i < |name| - 1 then name[i..] else []
  }

  /** A name with a non-empty stem before a dotted extension has that
      extension as its suffix, and only such names do. */
  lemma SuffixIff(name: string, ext: string)
    requires |ext| >= 2 && ext[0] == '.' && forall j :: 0 < j < |ext| ==> ext[j] != '.'
    ensures Suffix(name) == ext <==> |name| > |ext| && name[|name| - |ext|..] == ext
  {
    if |name| > |ext| && name[|name| - |ext|..] == ext {
      var i := LastDot(name);
      var p := |name| - |ext|;
      assert name[p] == ext[0];
      assert forall j :: p < j < |name| ==> name[j] == ext[j - p];
      assert i == p;
    }
  }

  /** `load_data`: the pickle decoder for a '.pickle' suffix, the JSON decoder
      for '.json', and TypeError naming the path for every other suffix. */
  function LoadData(path: FilePath): (r: Result<Format, Error>)
    ensures r == Success(Pickle) <==> Suffix(path.name) == ".pickle"
    ensures r == Success(Json) <==> Suffix(path.name) == ".json"
    ensures r.Failure? <==> r == Failure(TypeError(path))
  {
    var ext := Suffix(path.name);
    if ext == ".pickle" then Success(Pickle)
    else if ext == ".json" then Success(Json)
    else Failure(TypeError(path))
  }

  /** The decoder in terms of the file name alone: a name ending in '.pickle'
      or '.json' after a non-empty stem; every other name, '.pickle' and
      'data.pickle.bak' among them, is refused. */
  lemma LoadDataByName(path: FilePath)
    ensures LoadData(path) == Success(Pickle) <==>
      |path.name| > 7 && path.name[|path.name| - 7..] == ".pickle"
    ensures LoadData(path) == Success(Json) <==>
      |path.name| > 5 && path.name[|path.name| - 5..] == ".json"
    ensures LoadData(path).Failure? <==>
      !(|path.name| > 7 && path.name[|path.name| - 7..] == ".pickle") &&
      !(|path.name| > 5 && path.name[|path.name| - 5..] == ".json")
  {
    SuffixIff(path.name, ".pickle");
    SuffixIff(path.name, ".json");
  }

  // ---------------------------------------------------------------------------
  // __init__: the derived maps and the checks, in the order they are made
  // ---------------------------------------------------------------------------

  predicate HasIndices(c: Caption) {
    c.captionIdx.Some? && c.imgIdx.Some?
  }

  /** The key a caption lookup raises on: 'caption_idx' is read first. */
  function MissingKey(c: Caption): string {
    if c.captionIdx.None? then "caption_idx" else "img_idx"
  }

  /** The (caption_idx, img_idx) pairs the cap2img comprehension assigns, in
      caption order, or the KeyError of the first caption lacking one. */
  function CaptionPairs(cs: seq<Caption>): (r: Result<seq<(Index, Index)>, string>)
    ensures r.Success? <==> forall i :: 0 <= i < |cs| ==> HasIndices(cs[i])
    ensures r.Success? ==>
      |r.value| == |cs| &&
      (forall i :: 0 <= i < |cs| ==> r.value[i] == (cs[i].captionIdx.value, cs[i].imgIdx.value))
    ensures r.Failure? ==>
      exists i ::
        0 <= i < |cs| && !HasIndices(cs[i]) && r.error == MissingKey(cs[i]) &&
        (forall j :: 0 <= j < i ==> HasIndices(cs[j]))
  {
    if cs == [] then Success([])
    else if !HasIndices(cs[0]) then Failure(MissingKey(cs[0]))
    else
      assert forall i :: 1 <= i < |cs| ==> cs[i] == cs[1..][i - 1];
      match CaptionPairs(cs[1..])
      case Success(ps) => Success([(cs[0].captionIdx.value, cs[0].imgIdx.value)] + ps)
      case Failure(k) => Failure(k)
  }

  /** The guard of the image and feature directories as written: raise only
      when the path neither exists nor is a directory. */
  function RootRejectedAsWritten(present: bool, isDir: bool): bool {
    !present && !isDir
  }

  /** The evidently intended guard: raise unless the path is an existing
      directory. */
  function RootRejected(present: bool, isDir: bool): bool {
    !present || !isDir
  }

  /** The directory the constructor checks: raw images when image features
      are not used, features otherwise. */
  predicate RootReady(disk: Disk, useImgFeatures: bool) {
    if useImgFeatures then !RootRejected(disk.featureRootExists, disk.featureRootIsDir)
    else !RootRejected(disk.imgRootExists, disk.imgRootIsDir)
  }

  /** No later caption carries the caption index of caption i. */
  predicate LastCaptionAt(cs: seq<Caption>, i: int)
    requires 0 <= i < |cs|
  {
    forall j :: i < j < |cs| ==> cs[j].captionIdx != cs[i].captionIdx
  }

  /** The dict the cap2img comprehension builds from the pairs of `cs`: its
      keys are the caption indices, each mapped to the image index of the last
      caption carrying it. */
  lemma CaptionPairsDict(cs: seq<Caption>, ps: seq<(Index, Index)>)
    requires CaptionPairs(cs).Success? && CaptionPairs(cs).value == ps
    ensures forall k :: k in Keys(FromPairs(ps)) <==> exists i :: 0 <= i < |cs| && cs[i].captionIdx == Some(k)
    ensures forall i :: 0 <= i < |cs| && LastCaptionAt(cs, i) ==>
      HasIndices(cs[i]) && Get(FromPairs(ps), cs[i].captionIdx.value) == Some(cs[i].imgIdx.value)
  {
    forall k ensures k in Keys(ps) <==> exists i :: 0 <= i < |cs| && cs[i].captionIdx == Some(k) {
      if k in Keys(ps) {
        var i :| 0 <= i < |ps| && ps[i].0 == k;
        assert cs[i].captionIdx == Some(k);
      }
      if exists i :: 0 <= i < |cs| && cs[i].captionIdx == Some(k) {
        var i :| 0 <= i < |cs| && cs[i].captionIdx == Some(k);
        assert ps[i].0 == k;
      }
    }
    forall i | 0 <= i < |cs| && LastCaptionAt(cs, i)
      ensures Get(ps, cs[i].captionIdx.value) == Some(cs[i].imgIdx.value)
    {
      assert LastKeyAt(ps, i) by {
        forall j | i < j < |ps| ensures ps[j].0 != ps[i].0 {
          assert cs[j].captionIdx != cs[i].captionIdx;
        }
      }
      GetLast(ps, i);
    }
  }

  /** The dataset object once `__init__` has returned: the loaded captions,
      images and vocabulary and the two counts taken from them, assigned once
      and never changed. The maps `__init__` derives from them are the member
      functions below. */
  datatype Seq2SeqDataset = Seq2SeqDataset(
    captions: seq<Caption>,
    images: seq<Image>,
    wordIds: Dict<Index, Token>,
    numCaptions: nat,
    numImages: nat,
    useImgFeatures: bool)
  {
    /** Every caption carries both indices. */
    predicate CaptionsIndexed() {
      forall i :: 0 <= i < |captions| ==> HasIndices(captions[i])
    }

    /** What `__init__` leaves behind: counts that match the lists they were
        taken from, a vocabulary that is a real dict, and captions that all
        carry both indices. */
    predicate Valid() {
      && numCaptions == |captions|
      && numImages == |images|
      && DistinctKeys(wordIds)
      && CaptionsIndexed()
    }

    /** `__len__`: counts the captions again on every call, and agrees with
        the `num_captions` stored at construction. */
    function Len(): (n: nat)
      requires Valid()
      ensures n == numCaptions
    {
      |captions|
    }

    /** `cap2img`: each caption index of the captions, mapped to the image
        index of the last caption that carries it. */
    function Cap2Img(): (m: Dict<Index, Index>)
      requires CaptionsIndexed()
      ensures DistinctKeys(m)
      ensures forall k :: k in Keys(m) <==> exists i :: 0 <= i < |captions| && captions[i].captionIdx == Some(k)
      ensures forall i :: 0 <= i < |captions| && LastCaptionAt(captions, i) ==>
        HasIndices(captions[i]) && Get(m, captions[i].captionIdx.value) == Some(captions[i].imgIdx.value)
    {
      var ps := CaptionPairs(captions).value;
      CaptionPairsDict(captions, ps);
      FromPairs(ps)
    }

    /** `inv_word_ids`: each token of the vocabulary, mapped to the last index
        that holds it. */
    function InvWordIds(): (m: Dict<Token, Index>)
      ensures DistinctKeys(m)
      ensures Keys(m) == Values(wordIds)
      ensures forall i :: 0 <= i < |wordIds| && LastValueAt(wordIds, i) ==> Get(m, wordIds[i].1) == Some(wordIds[i].0)
    {
      Invert(wordIds)
    }

    /** `token2index`: one index per token, each the inverse vocabulary's entry
        for it; KeyError on the first token that is no vocabulary value. */
    function Token2Index(tokens: seq<Token>): (r: Result<seq<Index>, Token>)
      ensures r.Success? <==> forall i :: 0 <= i < |tokens| ==> tokens[i] in Values(wordIds)
      ensures r.Success? ==>
        |r.value| == |tokens| &&
        (forall i :: 0 <= i < |tokens| ==> Get(InvWordIds(), tokens[i]) == Some(r.value[i]))
      ensures r.Failure? ==>
        exists i ::
          0 <= i < |tokens| && tokens[i] == r.error &&
          r.error !in Values(wordIds) && (forall j :: 0 <= j < i ==> tokens[j] in Values(wordIds))
    {
      GetAll(InvWordIds(), tokens)
    }

    /** `index2token`: one token per index, each the vocabulary's entry for it;
        KeyError on the first index that is no vocabulary key. */
    function Index2Token(indices: seq<Index>): (r: Result<seq<Token>, Index>)
      ensures r.Success? <==> forall i :: 0 <= i < |indices| ==> indices[i] in Keys(wordIds)
      ensures r.Success? ==>
        |r.value| == |indices| &&
        (forall i :: 0 <= i < |indices| ==> Get(wordIds, indices[i]) == Some(r.value[i]))
      ensures r.Failure? ==>
        exists i ::
          0 <= i < |indices| && indices[i] == r.error &&
          r.error !in Keys(wordIds) && (forall j :: 0 <= j < i ==> indices[j] in Keys(wordIds))
    {
      GetAll(wordIds, indices)
    }
  }

  /** Both input files exist and both have a suffix `load_data` accepts. */
  predicate FilesLoad(disk: Disk, datasetPath: FilePath, vocabPath: FilePath) {
    disk.datasetExists && disk.vocabExists && LoadData(datasetPath).Success? && LoadData(vocabPath).Success?
  }

  /** Caption i is the first one that lacks an index. */
  predicate FirstUnindexed(cs: seq<Caption>, i: int)
    requires 0 <= i < |cs|
  {
    !HasIndices(cs[i]) && forall j :: 0 <= j < i ==> HasIndices(cs[j])
  }

  /** `__init__`. The checks come in the source's order: both input files
      exist, both suffixes are known, the dataset has 'captions' and 'images',
      every caption has both indices, the directory in use is ready. */
  function Init(
    datasetPath: FilePath,
    vocabPath: FilePath,
    disk: Disk,
    decoded: DecodedDataset,
    vocab: Dict<Index, Token>,
    useImgFeatures: bool
  ): (r: Result<Seq2SeqDataset, Error>)
    requires DistinctKeys(vocab)
    // each exception, under the checks that come before it
    ensures !(disk.datasetExists && disk.vocabExists) ==> r == Failure(FileNotFoundError)
    ensures disk.datasetExists && disk.vocabExists && LoadData(datasetPath).Failure? ==>
      r == Failure(TypeError(datasetPath))
    ensures (disk.datasetExists && disk.vocabExists && LoadData(datasetPath).Success? &&
             LoadData(vocabPath).Failure?) ==>
      r == Failure(TypeError(vocabPath))
    ensures FilesLoad(disk, datasetPath, vocabPath) && decoded.captions.None? ==>
      r == Failure(KeyError("captions"))
    ensures FilesLoad(disk, datasetPath, vocabPath) && decoded.captions.Some? && decoded.images.None? ==>
      r == Failure(KeyError("images"))
    ensures FilesLoad(disk, datasetPath, vocabPath) && decoded.captions.Some? && decoded.images.Some? ==>
      forall i :: 0 <= i < |decoded.captions.value| && FirstUnindexed(decoded.captions.value, i) ==>
        r == Failure(KeyError(MissingKey(decoded.captions.value[i])))
    ensures (FilesLoad(disk, datasetPath, vocabPath) && decoded.captions.Some? && decoded.images.Some? &&
             (forall i :: 0 <= i < |decoded.captions.value| ==> HasIndices(decoded.captions.value[i])) &&
             !RootReady(disk, useImgFeatures)) ==>
      r == Failure(FileNotFoundError)
    ensures r.Success? <==>
      && disk.datasetExists && disk.vocabExists
      && LoadData(datasetPath).Success? && LoadData(vocabPath).Success?
      && decoded.captions.Some? && decoded.images.Some?
      && (forall i :: 0 <= i < |decoded.captions.value| ==> HasIndices(decoded.captions.value[i]))
      && (if useImgFeatures then disk.featureRootExists && disk.featureRootIsDir
          else disk.imgRootExists && disk.imgRootIsDir)
    ensures r.Success? ==>
      && r.value.Valid()
      && r.value.captions == decoded.captions.value
      && r.value.images == decoded.images.value
      && r.value.wordIds == vocab
      && r.value.numCaptions == |decoded.captions.value|
      && r.value.numImages == |decoded.images.value|
      && r.value.useImgFeatures == useImgFeatures
  {
    if !(disk.datasetExists && disk.vocabExists) then Failure(FileNotFoundError)
    else if LoadData(datasetPath).Failure? then Failure(LoadData(datasetPath).error)
    else if LoadData(vocabPath).Failure? then Failure(LoadData(vocabPath).error)
    else if decoded.captions.None? then Failure(KeyError("captions"))
    else if decoded.images.None? then Failure(KeyError("images"))
    else
      var captions := decoded.captions.value;
      var images := decoded.images.value;
      match CaptionPairs(captions)
      case Failure(key) => Failure(KeyError(key))
      case Success(pairs) =>
        if !RootReady(disk, useImgFeatures) then Failure(FileNotFoundError)
        else
          Success(Seq2SeqDataset(captions, images, vocab, |captions|, |images|, useImgFeatures))
  }

  // ---------------------------------------------------------------------------
  // What a constructed dataset guarantees
  // ---------------------------------------------------------------------------

  /** The counts `__init__` stores are those of the decoded lists, and
      `__len__` gives the caption count. */
  lemma Sizes(
    datasetPath: FilePath, vocabPath: FilePath, disk: Disk,
    decoded: DecodedDataset, vocab: Dict<Index, Token>, useImgFeatures: bool)
    requires DistinctKeys(vocab)
    requires Init(datasetPath, vocabPath, disk, decoded, vocab, useImgFeatures).Success?
    ensures var d := Init(datasetPath, vocabPath, disk, decoded, vocab, useImgFeatures).value;
      && d.numCaptions == |decoded.captions.value|
      && d.numImages == |decoded.images.value|
      && d.Len() == |decoded.captions.value|
  {
  }

  /** Tokens turned into indices turn back into the same tokens, with any
      vocabulary: a token shared by several indices maps to the last of them,
      whose token it is. */
  lemma TokensRoundTrip(d: Seq2SeqDataset, tokens: seq<Token>)
    requires DistinctKeys(d.wordIds)
    requires forall i :: 0 <= i < |tokens| ==> tokens[i] in Values(d.wordIds)
    ensures d.Token2Index(tokens).Success?
    ensures d.Index2Token(d.Token2Index(tokens).value) == Success(tokens)
  {
    RoundTripValues(d.wordIds, tokens);
  }

  /** With a one-to-one vocabulary, indices turned into tokens turn back into
      the same indices. */
  lemma IndicesRoundTrip(d: Seq2SeqDataset, indices: seq<Index>)
    requires Injective(d.wordIds)
    requires forall i :: 0 <= i < |indices| ==> indices[i] in Keys(d.wordIds)
    ensures d.Index2Token(indices).Success?
    ensures d.Token2Index(d.Index2Token(indices).value) == Success(indices)
  {
    RoundTripKeys(d.wordIds, indices);
  }

  /** The guard as written lets a regular file through where a directory is
      needed, while the intended guard stops the constructor. */
  lemma AsWrittenAcceptsRegularFile(datasetPath: FilePath, vocabPath: FilePath, decoded: DecodedDataset, vocab: Dict<Index, Token>)
    requires DistinctKeys(vocab)
    ensures !RootRejectedAsWritten(true, false)
    ensures forall present: bool, isDir: bool :: (isDir ==> present) ==>
      (RootRejectedAsWritten(present, isDir) <==> !present)
    ensures Init(datasetPath, vocabPath, Disk(true, true, true, true, true, false), decoded, vocab, true).Failure?
  {
  }
}
