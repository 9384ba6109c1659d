/**
 * `GeminiClient`: the example store (`rag_data` and `rag_embeddings`, kept index-aligned),
 * its loader, nearest-neighbour retrieval and the generation call that ties the parts together.
 * The SDK calls (embedding, generation) and the cosine similarity are supplied as functions.
 */
module GeminiClient {
  import opened Wrappers
  import opened Text
  import opened Tweets
  import opened Retrieval
  import Prompt
  import ResponseParser

  /** The `task_type` the embedding call is made with. */
  datatype TaskType = RetrievalDocument | RetrievalQuery

  type Embedding = seq<real>

  /** One decoded JSON record: its `'text'` and `'tags'` entries, when present. */
  datatype Record = Record(text: Option<string>, tags: Option<seq<string>>)

  /** One `*.json` file of the data directory: either it failed to parse as JSON (`JSONDecodeError`), or it holds records. */
  datatype JsonFile = Unparsable | Parsed(records: seq<Record>)

  // ---------------------------------------------------------------- what loading yields

  /** The entries a single record adds: one stripped text with its tags (default `[]`), or none without `'text'`. */
  function RecordTweets(rec: Record): (r: seq<Tweet>)
    ensures |r| <= 1
    ensures r != [] <==> rec.text.Some?
  {
    match rec.text
    case Some(text) => [Tweet(Strip(text, Whitespace), rec.tags.GetOr([]))]
    case None => []
  }

  /** `f(xs[0]) + ... + f(xs[n - 1])`: what the first `n` items add, in order. */
  function FlatMap<T, U>(xs: seq<T>, f: T -> seq<U>, n: nat): seq<U>
    requires n <= |xs|
  {
    if n == 0 then [] else FlatMap(xs, f, n - 1) + f(xs[n - 1])
  }

  /** Items after the first `n` do not change what the first `n` add. */
  lemma {:induction false} FlatMapPrefix<T, U>(a: seq<T>, b: seq<T>, f: T -> seq<U>, n: nat)
    requires n <= |a|
    ensures FlatMap(a + b, f, n) == FlatMap(a, f, n)
  {
    if n > 0 {
      FlatMapPrefix(a, b, f, n - 1);
      assert (a + b)[n - 1] == a[n - 1];
    }
  }

  /** A single item adds exactly what `f` gives for it. */
  lemma FlatMapSingle<T, U>(x: T, f: T -> seq<U>)
    ensures FlatMap([x], f, 1) == f(x)
  {
    assert FlatMap([x], f, 1) == FlatMap([x], f, 0) + f([x][0]);
  }

  /** The items of `a + b` add those of `a`, then those of `b`. */
  lemma {:induction false} FlatMapAppend<T, U>(a: seq<T>, b: seq<T>, f: T -> seq<U>, k: nat)
    requires k <= |b|
    ensures FlatMap(a + b, f, |a| + k) == FlatMap(a, f, |a|) + FlatMap(b, f, k)
  {
    if k == 0 {
      FlatMapPrefix(a, b, f, |a|);
    } else {
      FlatMapAppend(a, b, f, k - 1);
      assert (a + b)[|a| + k - 1] == b[k - 1];
    }
  }

  /** The entries all of a file's records add, in file order. */
  function RecordsTweets(records: seq<Record>): seq<Tweet> {
    FlatMap(records, RecordTweets, |records|)
  }

  /** The entries a file adds: none when it failed to parse as JSON. */
  function FileTweets(file: JsonFile): seq<Tweet> {
    match file
    case Unparsable => []
    case Parsed(records) => RecordsTweets(records)
  }

  /** The entries loading a sequence of files adds, in directory order. */
  function LoadedTweets(files: seq<JsonFile>): seq<Tweet> {
    FlatMap(files, FileTweets, |files|)
  }

  /** The number of records that carry a `'text'` entry. */
  function CountWithText(records: seq<Record>): nat {
    if records == [] then 0
    else (if records[0].text.Some? then 1 else 0) + CountWithText(records[1..])
  }

  /** The number of well-formed records over all files that parsed. */
  function WellFormedCount(files: seq<JsonFile>): nat {
    if files == [] then 0
    else (match files[0] case Unparsable => 0 case Parsed(rs) => CountWithText(rs)) + WellFormedCount(files[1..])
  }

  /** Loading record by record: the records of `a + b` add those of `a`, then those of `b`. */
  lemma RecordsTweetsAppend(a: seq<Record>, b: seq<Record>)
    ensures RecordsTweets(a + b) == RecordsTweets(a) + RecordsTweets(b)
  {
    FlatMapAppend(a, b, RecordTweets, |b|);
  }

  /** Loading file by file: the files of `a + b` add those of `a`, then those of `b`. */
  lemma LoadedTweetsAppend(a: seq<JsonFile>, b: seq<JsonFile>)
    ensures LoadedTweets(a + b) == LoadedTweets(a) + LoadedTweets(b)
  {
    FlatMapAppend(a, b, FileTweets, |b|);
  }

  /** A file that fails to parse as JSON adds nothing: loading without it gives the same store. */
  lemma UnparsableFileAddsNothing(files: seq<JsonFile>, k: nat)
    requires k < |files| && files[k] == Unparsable
    ensures LoadedTweets(files) == LoadedTweets(files[..k] + files[k + 1..])
  {
    var before, after := files[..k], files[k + 1..];
    assert files == (before + [Unparsable]) + after;
    LoadedTweetsAppend(before + [Unparsable], after);
    LoadedTweetsAppend(before, [Unparsable]);
    FlatMapSingle(Unparsable, FileTweets);
    LoadedTweetsAppend(before, after);
  }

  /** Each record with a `'text'` entry adds exactly one entry; the others add none. */
  lemma {:induction false} RecordsTweetsCount(records: seq<Record>)
    ensures |RecordsTweets(records)| == CountWithText(records)
  {
    if records != [] {
      RecordsTweetsCount(records[1..]);
      assert records == [records[0]] + records[1..];
      RecordsTweetsAppend([records[0]], records[1..]);
      FlatMapSingle(records[0], RecordTweets);
    }
  }

  /** The store holds one entry per well-formed record across all files that parsed. */
  lemma {:induction false} LoadedTweetsCount(files: seq<JsonFile>)
    ensures |LoadedTweets(files)| == WellFormedCount(files)
  {
    if files != [] {
      LoadedTweetsCount(files[1..]);
      assert files == [files[0]] + files[1..];
      LoadedTweetsAppend([files[0]], files[1..]);
      FlatMapSingle(files[0], FileTweets);
      match files[0]
      case Unparsable =>
      case Parsed(rs) => RecordsTweetsCount(rs);
    }
  }

  /** Every record's text is stored stripped. */
  lemma {:induction false} RecordsTweetsStripped(records: seq<Record>, n: nat)
    requires n <= |records|
    ensures forall t :: t in FlatMap(records, RecordTweets, n) ==> HasTrimmedEnds(t.text, Whitespace)
  {
    if n > 0 {
      RecordsTweetsStripped(records, n - 1);
      var rec := records[n - 1];
      if rec.text.Some? {
        var r := Strip(rec.text.value, Whitespace);
        StripIsStrip(rec.text.value, Whitespace);
        var i: nat :| StripsAt(rec.text.value, Whitespace, i, r);
      }
    }
  }

  /** Every stored text is stripped, whatever the files held. */
  lemma {:induction false} LoadedTweetsStripped(files: seq<JsonFile>, n: nat)
    requires n <= |files|
    ensures forall t :: t in FlatMap(files, FileTweets, n) ==> HasTrimmedEnds(t.text, Whitespace)
  {
    if n > 0 {
      LoadedTweetsStripped(files, n - 1);
      match files[n - 1]
      case Unparsable =>
      case Parsed(rs) => RecordsTweetsStripped(rs, |rs|);
    }
  }

  // ---------------------------------------------------------------- the store and retrieval, on values

  /** `embeddings` and `data` are index-aligned: entry `i` of `embeddings` is the document embedding of entry `i`'s text. */
  ghost predicate Aligned(embeddings: seq<Embedding>, data: seq<Tweet>, embed: (string, TaskType) -> Embedding)
  {
    && |embeddings| == |data|
    && forall i :: 0 <= i < |data| ==> embeddings[i] == embed(data[i].text, RetrievalDocument)
  }

  /** Appending one entry together with the embedding of its text keeps the lists aligned. */
  lemma AlignedAppend(embeddings: seq<Embedding>, data: seq<Tweet>, embed: (string, TaskType) -> Embedding, t: Tweet)
    requires Aligned(embeddings, data, embed)
    ensures Aligned(embeddings + [embed(t.text, RetrievalDocument)], data + [t], embed)
  {
    var e', d' := embeddings + [embed(t.text, RetrievalDocument)], data + [t];
    forall i | 0 <= i < |d'|
      ensures e'[i] == embed(d'[i].text, RetrievalDocument)
    {
      if i < |data| {
        assert e'[i] == embeddings[i] && d'[i] == data[i];
      }
    }
  }

  /** The similarity of the query embedding to every stored embedding, in store order. */
  function ScoresOf(embeddings: seq<Embedding>, queryEmbed: Embedding, similarity: (Embedding, Embedding) -> real): seq<real>
  {
    seq(|embeddings|, j requires 0 <= j < |embeddings| => similarity(queryEmbed, embeddings[j]))
  }

  /** `result` lists the entries of `data` at `picked`, and `picked` is a best-first selection under `scores`. */
  ghost predicate IsSelection(scores: seq<real>, data: seq<Tweet>, picked: seq<nat>, result: seq<Tweet>)
  {
    && |picked| == |result|
    && IsDescendingTop(scores, picked)
    && forall p :: 0 <= p < |picked| ==> picked[p] < |data| && result[p] == data[picked[p]]
  }

  // ---------------------------------------------------------------- the client

  class Client {
    /** `genai.embed_content(...)['embedding']`. */
    const embed: (string, TaskType) -> Embedding
    /** The cosine similarity of a query embedding and a stored embedding. */
    const similarity: (Embedding, Embedding) -> real
    /** `self.model.generate_content(prompt).text`. */
    const generate: string -> string

    var ragEmbeddings: seq<Embedding>
    var ragData: seq<Tweet>

    /** The two lists stay index-aligned. */
    ghost predicate Valid()
      reads this
    {
      Aligned(ragEmbeddings, ragData, embed)
    }

    /** `__init__`: an empty store, loaded from the data directory when one is given. */
    constructor (embed: (string, TaskType) -> Embedding, similarity: (Embedding, Embedding) -> real,
                 generate: string -> string, ragFiles: Option<seq<JsonFile>>)
      ensures Valid()
      ensures this.embed == embed && this.similarity == similarity && this.generate == generate
      ensures ragData == (match ragFiles case Some(files) => LoadedTweets(files) case None => [])
    {
      this.embed := embed;
      this.similarity := similarity;
      this.generate := generate;
      ragEmbeddings := [];
      ragData := [];
      new;
      if ragFiles.Some? {
        LoadAndEmbedRagData(ragFiles.value);
      }
    }

    /** `_load_and_embed_rag_data`: appends one aligned (embedding, entry) pair per well-formed record. */
    method LoadAndEmbedRagData(files: seq<JsonFile>)
      requires Valid()
      modifies this
      ensures Valid()
      ensures ragData == old(ragData) + LoadedTweets(files)
    {
      ghost var start := ragData;
      for f := 0 to |files|
        invariant Valid()
        invariant ragData == start + FlatMap(files, FileTweets, f)
      {
        LoadFile(files[f]);
      }
    }

    /** The body of the file loop of `_load_and_embed_rag_data`: one file's records, in order. */
    method LoadFile(file: JsonFile)
      requires Valid()
      modifies this
      ensures Valid()
      ensures ragData == old(ragData) + FileTweets(file)
    {
      match file {
        case Unparsable =>
          // the file is reported and skipped
        case Parsed(records) =>
          ghost var start := ragData;
          for r := 0 to |records|
            invariant Valid()
            invariant ragData == start + FlatMap(records, RecordTweets, r)
          {
            AddRecord(records[r]);
          }
      }
    }

    /** The body of the record loop of `_load_and_embed_rag_data`: a record with `'text'` adds one aligned pair. */
    method AddRecord(tweet: Record)
      requires Valid()
      modifies this
      ensures Valid()
      ensures ragData == old(ragData) + RecordTweets(tweet)
    {
      if tweet.text.Some? {
        var text := Strip(tweet.text.value, Whitespace);
        var tags := tweet.tags.GetOr([]);
        var embedding := embed(text, RetrievalDocument);
        AlignedAppend(ragEmbeddings, ragData, embed, Tweet(text, tags));
        ragEmbeddings := ragEmbeddings + [embedding];
        ragData := ragData + [Tweet(text, tags)];
      }
    }

    /** The similarity of every stored entry to the query, in store order. */
    ghost function Scores(query: string): (scores: seq<real>)
      reads this
    {
      ScoresOf(ragEmbeddings, embed(query, RetrievalQuery), similarity)
    }

    /** `result` lists the stored entries at `picked`, and `picked` is a best-first selection for `query`. */
    ghost predicate IsRetrieval(query: string, picked: seq<nat>, result: seq<Tweet>)
      reads this
    {
      IsSelection(Scores(query), ragData, picked, result)
    }

    /** `_get_similar_tweets`: the `top_k` stored entries most similar to the query, most similar first. */
    method GetSimilarTweets(query: string, topK: int) returns (result: seq<Tweet>, ghost picked: seq<nat>)
      requires Valid()
      ensures ragData == [] ==> result == []
      ensures topK >= 1 ==> |result| == Min(topK, |ragData|)
      ensures topK == 0 ==> |result| == |ragData|
      ensures topK < 0 ==> |result| == Max(|ragData| + topK, 0)
      ensures IsRetrieval(query, picked, result)
    {
      if ragData == [] {
        return [], [];
      }
      var embeddings, data := ragEmbeddings, ragData;
      var queryEmbed := embed(query, RetrievalQuery);
      var similarities: seq<real> := [];
      for j := 0 to |embeddings|
        invariant |similarities| == j
        invariant forall t :: 0 <= t < j ==> similarities[t] == similarity(queryEmbed, embeddings[t])
      {
        similarities := similarities + [similarity(queryEmbed, embeddings[j])];
      }
      var top := SelectTop(similarities, topK);
      result := seq(|top|, p requires 0 <= p < |top| => data[top[p]]);
      picked := top;
      assert similarities == Scores(query);
    }

    /** `generate_tweet`: retrieve three examples, prompt the model with them, parse its answer. */
    method GenerateTweet(trendContext: string) returns (r: Tweet)
      requires Valid()
      ensures |r.text| <= ResponseParser.MaxTextLength && |r.tags| <= ResponseParser.MaxTags
      ensures exists examples, picked ::
        && IsRetrieval(trendContext, picked, examples)
        && |examples| == Min(3, |ragData|)
        && r == ResponseParser.ParseResponse(generate(Prompt.ComposePrompt(trendContext, examples)))
    {
      var examples, picked := GetSimilarTweets(trendContext, 3);
      var prompt := Prompt.ComposePrompt(trendContext, examples);
      var response := generate(prompt);
      r := ResponseParser.ParseResponse(response);
    }
  }
}
