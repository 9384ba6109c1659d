# twitter-agent: the Gemini client, modelled in Dafny

The Gemini client of twitter-agent (`src/helpers/gemini_client.py`) writes tweets with
retrieval-augmented generation. It does four things:

- **It loads a store of example tweets.** Each `*.json` file of a data directory holds records. Every
  record that has a `'text'` becomes one stored entry: the text stripped of surrounding
  whitespace, and the tags (default `[]`). Each entry also gets a document embedding. The entries and
  their embeddings are kept in two parallel lists, `rag_data` and `rag_embeddings`.
- **It retrieves the stored entries most similar to a query.** It scores every stored embedding
  against the query embedding by cosine similarity. Then it takes `np.argsort(similarities)[-top_k:][::-1]`:
  the indices of the `top_k` highest scores, best first.
- **It builds the prompt.** A fixed template surrounds the trend context and one rendered line per retrieved
  example. When nothing was retrieved, a placeholder line stands in for the examples.
- **It parses the model's answer.** It cuts quotes, spaces and newlines from both ends of the answer.
  Then it splits the answer at the first `"\nTags:"`. The comma-separated items after the marker
  become tags: stripped, blank ones dropped, at most five. The text before the marker becomes the tweet
  text: stripped, and cut to 277 characters plus `"..."` when longer than 280.

The project has these modules:

| file | module | form |
|---|---|---|
| `wrappers.dfy` | `Wrappers` | `Option` |
| `tweets.dfy` | `Tweets` | a stored entry: text and tags |
| `text.dfy` | `Text` | the Python `str` operations the client uses: `strip`, `in`/`split(sep, 1)`, `split(",")` and `join` |
| `response_parser.dfy` | `ResponseParser` | `_parse_response`, as pure functions |
| `prompt.dfy` | `Prompt` | the f-string of `generate_tweet`, as pure functions |
| `retrieval.dfy` | `Retrieval` | `argsort` as an insertion-sort method, and the `[-top_k:][::-1]` selection |
| `gemini_client.dfy` | `GeminiClient` | class `Client`: the two list fields, the loader and retrieval methods, and `generate_tweet` |

Some of the client's dependencies are passed in rather than modelled:

- **SDK calls.** The embedding call and the generation call become function-valued fields of the
  client (`embed`, `generate`).
- **Similarity.** The cosine similarity of two embeddings is a third such field (`similarity`), so scores are
  plain reals.
- **JSON files.** The loader takes the data directory as a sequence of already-decoded files.
  Each file either failed to parse as JSON (`JSONDecodeError`) or holds a sequence of records.

Three behaviours of the code worth stating:

- **`top_k = 0`.** `[-0:]` is the whole list, so it returns every entry, not an empty list.
- **Empty texts.** A record whose text is empty after stripping is still stored; nothing checks for it.
- **Ties.** Their order is not fixed, because `np.argsort` is not stable by default. The model proves
  nothing about the order among equal scores. (Its insertion sort happens to keep ties in store order.)

## Model

| member | source | states |
|---|---|---|
| Text.Strip | src/helpers/gemini_client.py:100 | Python's `s.strip(chars)`. Its own contract only bounds the result by the input's length; `Text.StripIsStrip` characterises it. |
| Text.StripIsStrip | src/helpers/gemini_client.py:100 | `strip(chars)` returns a slice of its input. Every character cut from either end is in `chars`, and the result neither starts nor ends with one. |
| Text.StripsAtUnique | src/helpers/gemini_client.py:111 | That characterisation admits exactly one result, so it pins down Python's `strip`. |
| Text.StripIdempotent | src/helpers/gemini_client.py:30 | A general fact about `str.strip`: stripping a second time with the same characters changes nothing. |
| Text.StripUnchanged | src/helpers/gemini_client.py:111 | A general fact about `str.strip`: a string with none of the characters at either end is its own strip. |
| Text.IsSpace | src/helpers/gemini_client.py:30 | Python's `str.isspace()` on one character, listed by code point; `Text.Whitespace` collects those characters, which `.strip()` without argument removes at lines 30, 105 and 111. It has no contract of its own; `Text.StripIsStrip` states what stripping them does. |
| Text.IndexOf | src/helpers/gemini_client.py:103-104 | `Some(i)` exactly when the pattern occurs, and `i` is its first occurrence. `None` means it occurs nowhere, i.e. `pat in s` is false. |
| Text.Split | src/helpers/gemini_client.py:105 | `split(",")` yields at least one part (`"".split(",") == [""]`), and no part contains the separator. |
| Text.Join | src/helpers/gemini_client.py:76-77 | Python's `sep.join(parts)`. It has no contract of its own; `Text.JoinLayout` and `Text.JoinSplit` characterise it. |
| Text.JoinSplit | src/helpers/gemini_client.py:105 | Joining the parts of a split with the same separator gives back the string. |
| Text.SplitAtSeparator | src/helpers/gemini_client.py:105 | The first separator ends the first part; the rest is split the same way. |
| Text.SplitNoSeparator | src/helpers/gemini_client.py:105 | Without a separator, the single part is the whole string. |
| Text.JoinLayout | src/helpers/gemini_client.py:76-78 | `sep.join(parts)` lays the parts out in order. Part `i` sits at its offset, a separator follows every part but the last, and the last part ends the string. |
| ResponseParser.ParseResponse | src/helpers/gemini_client.py:98-118 | The parser is total. The text has at most 280 characters, there are at most 5 tags, and every tag is non-empty with no whitespace at either end. |
| ResponseParser.SplitSections | src/helpers/gemini_client.py:103-108 | The content is no longer than the cleaned answer, and every tag is clean. Where the split falls is stated by `ResponseParser.SplitAtFirstMarker` and `ResponseParser.ContentHasNoMarker`. |
| ResponseParser.Body | src/helpers/gemini_client.py:111 | The stripped content. It has no contract of its own; `ResponseParser.BodyHasNoMarker` and `ResponseParser.NoMarkerNoTags` characterise it. |
| ResponseParser.CapText | src/helpers/gemini_client.py:112-113 | The result has at most 280 characters. Content of up to 280 characters is unchanged. Longer content keeps its first 277 characters and has length exactly 280. |
| ResponseParser.CapTags | src/helpers/gemini_client.py:117 | `tags[:5]`: a prefix of the tags, of length at most 5, all of them when there are at most 5, and exactly 5 otherwise. |
| ResponseParser.TagCandidates | src/helpers/gemini_client.py:103-108 | The `tags` list before `[:5]`. It has no contract of its own; `ResponseParser.SplitAtFirstMarker`, `ResponseParser.NoMarkerNoTags` and `ResponseParser.CleanTagsMembers` characterise it. |
| ResponseParser.CleanTags | src/helpers/gemini_client.py:105 | The comprehension keeps at most as many items as it is given, and each one kept is a clean tag. |
| ResponseParser.CleanTagsMembers | src/helpers/gemini_client.py:105 | `t` is kept exactly when `t` is non-empty and is the strip of some item. |
| ResponseParser.CleanTagsAppend | src/helpers/gemini_client.py:105 | The comprehension keeps item order: cleaning `a + b` is cleaning `a`, then cleaning `b`. |
| ResponseParser.TagsArePrefixOfCandidates | src/helpers/gemini_client.py:117 | The returned tags are the first `min(5, n)` candidates, in order, with duplicates kept. |
| ResponseParser.TextIsCappedBody | src/helpers/gemini_client.py:111-113 | A body over 280 characters becomes its first 277 plus `"..."` (length 280). Any other body is returned unchanged. |
| ResponseParser.SplitAtFirstMarker | src/helpers/gemini_client.py:103-105 | When the marker first occurs at `i`, the content is everything before `i`, and the tags come from everything after the marker. |
| ResponseParser.NoMarkerNoTags | src/helpers/gemini_client.py:106-108 | Without the marker there are no tags, and the body is the stripped cleaned answer. |
| ResponseParser.ContentHasNoMarker | src/helpers/gemini_client.py:104 | The content before the split does not contain the marker. |
| ResponseParser.StripKeepsNoMarker | src/helpers/gemini_client.py:111 | Stripping cannot create the marker. |
| ResponseParser.BodyHasNoMarker | src/helpers/gemini_client.py:103-111 | The stripped body never contains the marker. |
| ResponseParser.NoMarkerAfterEllipsis | src/helpers/gemini_client.py:113 | Appending `"..."` to a string without the marker does not create it. |
| ResponseParser.CapKeepsNoMarker | src/helpers/gemini_client.py:112-113 | The 280-character cap cannot create the marker. |
| ResponseParser.TextHasNoMarker | src/helpers/gemini_client.py:100-113 | The returned text never contains `"\nTags:"`, whether truncated or not. |
| Retrieval.ArgSort | src/helpers/gemini_client.py:63 | `np.argsort`: every index exactly once, in non-decreasing score order. |
| Retrieval.InsertStep | src/helpers/gemini_client.py:63 | Inserting the next index before the first strictly higher score keeps the listing sorted and complete. |
| Retrieval.SliceStart | src/helpers/gemini_client.py:63 | Where `xs[-k:]` starts in a list of `n`. The slice keeps `min(k, n)` elements for `k >= 1`, all `n` for `k == 0` (`[-0:]`), and `max(n + k, 0)` for negative `k`. |
| Retrieval.Reverse | src/helpers/gemini_client.py:63 | `xs[::-1]`. It has no contract of its own; `Retrieval.ReversedTailIsTop` states what reversing the argsort's tail yields. |
| Retrieval.ReversedTailIsTop | src/helpers/gemini_client.py:63 | The reversed tail of an argsort, of any length, is a best-first selection. Its indices are distinct and in non-increasing score order, and no index left out scores higher than one picked. |
| Retrieval.SelectTop | src/helpers/gemini_client.py:63 | `argsort(s)[-top_k:][::-1]` is a best-first selection. Its size is `min(top_k, n)` for `top_k >= 1`, `n` for `top_k == 0`, and `max(n + top_k, 0)` for negative `top_k`. |
| Prompt.ComposePrompt | src/helpers/gemini_client.py:70-93 | The prompt: the template around the trend context and the examples section. It has no contract of its own; `Prompt.PromptEmbedsTrend`, `Prompt.PromptEmbedsSection` and `Prompt.ExampleLineInPrompt` characterise it for any template. |
| Prompt.ExampleLine | src/helpers/gemini_client.py:77 | One example's line. It has no contract of its own; `Prompt.ExampleLineQuotesText` characterises it. |
| Prompt.ExampleLines | src/helpers/gemini_client.py:76-78 | The rendered lines, one per example. It has no contract of its own; `Prompt.ExampleLinesInOrder` and `Prompt.ExampleLineInPrompt` state their order and place. |
| Prompt.ExamplesSection | src/helpers/gemini_client.py:76-79 | The lines joined by newlines, or the placeholder. It has no contract of its own; `Prompt.SectionIsPlaceholderIffNoExamples` characterises it. |
| Prompt.PromptEmbedsTrend | src/helpers/gemini_client.py:73 | The trend context appears verbatim in the prompt, right after the template's head. |
| Prompt.PromptEmbedsSection | src/helpers/gemini_client.py:70-93 | The examples section appears verbatim in the prompt, followed by the template's tail, which ends the prompt. |
| Prompt.SectionIsPlaceholderIffNoExamples | src/helpers/gemini_client.py:76-79 | The examples section is `"- No examples available"` exactly when there are no examples. |
| Prompt.NoExamplesPromptHasPlaceholder | src/helpers/gemini_client.py:79 | With no examples, the placeholder sits in the prompt where the examples go. |
| Prompt.PlaceholderFromAnExample | src/helpers/gemini_client.py:76-79 | The converse holds only for the section. An example whose text is the placeholder puts it into the prompt too. |
| Prompt.ExampleLinesInOrder | src/helpers/gemini_client.py:76-78 | In the section, line `i` renders example `i` at its offset. A newline follows each line but the last, and the last line ends the section. |
| Prompt.ExampleLineInPrompt | src/helpers/gemini_client.py:70-79 | Each example's line occurs in the prompt, at the section's offset plus the line's offset, in retrieval order. |
| Prompt.ExampleLineQuotesText | src/helpers/gemini_client.py:77 | An example's line is `- Tweet: "`, its text, a closing quote, a newline, `  Tags: `, and its tags joined by `", "` (nothing after the label when there are no tags). |
| GeminiClient.RecordTweets | src/helpers/gemini_client.py:29-31 | A record adds at most one entry, and it adds one exactly when it has a `'text'`. |
| GeminiClient.RecordsTweets | src/helpers/gemini_client.py:28-41 | What the record loop adds for one file. It has no contract of its own; `GeminiClient.RecordsTweetsAppend`, `GeminiClient.RecordsTweetsCount` and `GeminiClient.RecordsTweetsStripped` characterise it. |
| GeminiClient.FileTweets | src/helpers/gemini_client.py:25-43 | What one file adds: nothing when it failed to parse as JSON, else its records' entries. It has no contract of its own; `GeminiClient.UnparsableFileAddsNothing` and `GeminiClient.Client.LoadFile` characterise it. |
| GeminiClient.LoadedTweets | src/helpers/gemini_client.py:24-43 | What loading a directory's files adds. It has no contract of its own; `GeminiClient.LoadedTweetsAppend`, `GeminiClient.LoadedTweetsCount`, `GeminiClient.LoadedTweetsStripped` and `GeminiClient.UnparsableFileAddsNothing` characterise it. |
| GeminiClient.ScoresOf | src/helpers/gemini_client.py:56-61 | The similarity of the query to each stored embedding, in store order. It has no contract of its own; `GeminiClient.Client.GetSimilarTweets` uses it to state the selection. |
| GeminiClient.Client.Scores | src/helpers/gemini_client.py:50-61 | The query's embedding (as a retrieval query) scored against every stored embedding, in store order. It has no contract of its own; `GeminiClient.Client.GetSimilarTweets` states the selection in its terms. |
| GeminiClient.RecordsTweetsAppend | src/helpers/gemini_client.py:28-41 | Loading the records of `a + b` adds those of `a`, then those of `b`. |
| GeminiClient.LoadedTweetsAppend | src/helpers/gemini_client.py:24-43 | Loading the files of `a + b` adds those of `a`, then those of `b`. |
| GeminiClient.UnparsableFileAddsNothing | src/helpers/gemini_client.py:42-43 | A file that failed to parse as JSON (`JSONDecodeError`) adds nothing: the store is the same as if the file were absent. |
| GeminiClient.RecordsTweetsCount | src/helpers/gemini_client.py:28-29 | A file adds exactly one entry per record that has a `'text'`. |
| GeminiClient.LoadedTweetsCount | src/helpers/gemini_client.py:24-43 | The store holds one entry per record with a `'text'` across all files that parsed. |
| GeminiClient.RecordsTweetsStripped | src/helpers/gemini_client.py:30 | Every text a file adds has no whitespace at either end, for every prefix of its records. |
| GeminiClient.LoadedTweetsStripped | src/helpers/gemini_client.py:24-43 | Every stored text has no whitespace at either end, for every prefix of the files. |
| GeminiClient.AlignedAppend | src/helpers/gemini_client.py:40-41 | Appending an entry together with its text's embedding keeps the two lists index-aligned. |
| GeminiClient.Client.constructor | src/helpers/gemini_client.py:8-19 | A new client's lists are aligned. Its store is empty, or what loading the data directory yields. |
| GeminiClient.Client.LoadAndEmbedRagData | src/helpers/gemini_client.py:21-43 | Loading keeps `rag_embeddings` and `rag_data` aligned, and appends exactly what the files yield, in order. |
| GeminiClient.Client.LoadFile | src/helpers/gemini_client.py:25-43 | One file appends its records' entries in order, or nothing when it failed to parse as JSON. The lists stay aligned. |
| GeminiClient.Client.AddRecord | src/helpers/gemini_client.py:29-41 | A record with a `'text'` appends its stripped text with its tags (default `[]`), plus that text's embedding. A record without one appends nothing. |
| GeminiClient.Client.GetSimilarTweets | src/helpers/gemini_client.py:45-64 | An empty store gives `[]`. Otherwise the result has the sizes of `SelectTop`, and lists the stored entries at a best-first selection under the query's scores. |
| GeminiClient.Client.GenerateTweet | src/helpers/gemini_client.py:66-96 | The tweet is the parse of the model's answer to the prompt built from `min(3, n)` best-first retrieved examples. It respects the 280-character and 5-tag limits. |

## Left out

- Text.Strip: its own contract only bounds the result's length. The full characterisation is `Text.StripIsStrip`, a separate lemma, so that other proofs do not carry it unless they call it.
- The Gemini SDK is not modelled. This covers `genai.configure`, the model name, and the embedding and generation calls (given as functions of the client), along with any exception they raise.
- The `GEMINI_API_KEY` environment check in `__init__` is left out, because it reads the process environment.
- The cosine similarity (`np.dot` / `np.linalg.norm`) is abstracted to a real-valued function, because it is floating point. Zero-norm embeddings (NaN) are not modelled.
- JSON decoding, `Path.glob` discovery and file opening are left out. The loader receives the decoded files in directory order.
- Only `json.JSONDecodeError` is caught. Three other failures stop the whole load, and with it the constructor; none is modelled: a file whose bytes are not valid text in the locale encoding (`UnicodeDecodeError` while reading); a file whose top-level value is a number, `null` or a boolean (`TypeError` at `for tweet in tweets`, line 28); and a record that is a number, `null` or a boolean (`TypeError` at `'text' in tweet`, line 29).
- Records are modelled as JSON objects. A record that is a string or a list is not modelled. For such a record, the `'text' in tweet` test is a substring or element test: the record is skipped silently unless it contains `"text"`, and then indexing it raises `TypeError`. A top-level object, iterated key by key, follows the same rule. A non-string `'text'` value, which would raise at `.strip()`, is not modelled either.
- A `'tags'` value other than a list of strings is not modelled. `tweet.get('tags', [])` returns whatever value is present (`"tags": null` stores `None`, and `", ".join(None)` then raises when that example is retrieved). The model's tags are a list when the key is present and `[]` when it is absent.
- The warning printed for a file that fails to parse as JSON is not modelled; only its effect (nothing is added) is.
- The order among equal scores is not stated, since `np.argsort` does not fix it.
- The prompt's template text is written out as constants. The prompt lemmas hold for any template.
- String lengths count Unicode code points, as Python's `len` does on `str`.
- No property was proved about particular literal answers (such as `"Hello\nTags: a, b"`). Everything is stated for all inputs.
