# Discourse topic search: retrieval core

A Dafny model of a small question-answering service over scraped forum topics.
The service embeds every topic title once, embeds the incoming question, scores
each title by cosine similarity, and answers with links to the two best topics.
When the remote feature-extraction model raises, it falls back to a vector
derived from the MD5 digest of the text. The scraper builds the corpus. It keeps
the forum topics created inside a fixed date window and collects them page by
page.

Modules, one per component:

- `Embedder` (`embedder.dfy`, app.py:28-90). `GetEmbedding` is the method; its
  specification function is `Embedding`. It covers the missing-token early exit,
  the shape normalisation of the remote answer (`Normalize`, over the tagged
  `Response` datatype) and the fallback. `FallbackEmbedding` keeps the source's
  two loops: one value per hex pair, then a prefix-doubling `extend` up to 384
  entries. It is proved equal to `FallbackVector`, which is 384 entries with
  period 16.
- `VectorIndex` (`vector_index.dfy`, app.py:92-105). This is the title-embedding
  loop, plus the branch that takes the cached index as it is.
- `Ranker` (`ranker.dfy`, app.py:139-155). It holds the zero-norm guard of
  `cosine`, the loop that appends one score per index entry, and Python's stable
  `sorted(..., reverse=True)`. That sort is an insertion sort under the strict
  order `Before`: higher score first, and lower index first on equal scores.
  `RankedUnique` proves that only one ordering is ranked this way. So the model's
  sort returns the same list as Python's. `Top` is then the first k positions,
  and `Links` builds the link list.
- `QueryService` (`query_service.dfy`). The handlers `root` (app.py:108-158) and
  `answer` (app.py:160-217) run the same steps, so they are modelled once, as
  `Respond` and the method `Answer`. The optional image upload enters as its
  outcome (`Upload`): no image, saved, or raised. A raise is not caught.
- `Corpus` and `Decimal` (`corpus.dfy`, `decimal.dfy`). These hold the corpus
  record, the `titles`/`urls` lists of app.py:24-25, and `str(int)` together
  with its inverse. The inverse shows that a topic URL names its id.
- `Scrape` (`scrape.py` → `scrape.dfy`). `FilterTopics` and `ScrapeAll` keep the
  source's loops. They are proved equal to `Filtered` and `Scraped`.

Collaborators that the model cannot see are parameters:

- the `HF_TOKEN` setting;
- the remote model, as `featureExtraction: string -> RemoteCall`;
- MD5, as `md5: string -> Digest` (16 bytes); `hexdigest()` is `HexEncode` of
  them;
- the outcome of the image upload, as `Upload`;
- the floating-point quotient inside `cosine`, as `ratio`;
- `dateutil`'s `parse`, as a partial function giving an ISO date string;
- the topic-list pages, as a finite sequence (pages past its end are empty).

Behaviour of the code that is easy to miss; the model follows the code as written:

- A missing token returns `[]` without trying the fallback (app.py:33-35), so
  every question then gets a 500 (`NoTokenAlwaysFails`). Only an exception
  reaches the fallback (app.py:64-70).
- A numpy array of several rows is flattened (app.py:55), so the result holds
  every row, not just the first. Every array, whatever its shape, yields all
  its elements in row-major order (`NormalizeArray`).
- An empty index entry scores 0.0, so an entry with a negative score ranks
  below it (`PlaceholderOutranksNegative`).
- Two non-zero vectors of different lengths make `np.dot` raise. The handler
  does not catch that error, so Flask answers 500. This is
  `QueryError.Uncaught`.
- The cached index is used with no length check. A cached index longer than the
  corpus can make `urls[i]` raise `IndexError`, which is also `Uncaught`. With
  an aligned index this cannot happen (`AlignedIndexAnswers`).
- The scraper's window bounds are the strings of scrape.py:13. They replace the
  date objects of scrape.py:7-8, and dates are compared as strings.

## Model

| member | source | states |
|---|---|---|
| `Decimal.NatToString` | app.py:25 | `str(n)` of a natural number is a non-empty string of decimal digits |
| `Decimal.IntToString` | app.py:25 | `str(n)` is non-empty; it is digits, with at most a leading minus sign |
| `Decimal.ParseNatToString` | app.py:25 | reading the digits of `str(n)` gives back `n` |
| `Decimal.IntStringRoundTrip` | app.py:25 | `int(str(n)) == n` for every integer, negatives included |
| `Decimal.IntToStringInjective` | app.py:25 | different ids have different decimal texts |
| `Corpus.Titles` | app.py:24 | one title per record, position i holding record i's title |
| `Corpus.Urls` | app.py:25 | one link per record, position i linking to record i's topic id, aligned with `Titles` |
| `Corpus.IdFromUrl` | scrape.py:46 | the last path segment of any URL ending in `/` and `str(id)` is `str(id)`, and it reads back as the id |
| `Corpus.TopicLinkNamesId` | app.py:25 | the service's link for a topic ends with its id; since distinct ids have distinct decimal texts, topics with different ids get different links |
| `Embedder.HexValue` | app.py:83 | `int(c, 16)` of one hex character is below 16 |
| `Embedder.ByteAt` | app.py:82-83 | each base value decoded from one two-character hex pair lies in 0..255 |
| `Embedder.ByteAtHexEncode` | app.py:77-83 | decoding hex pair j of `hexdigest()` (the `HexEncode` of the digest bytes) gives back digest byte j, so the 16 base values are exactly the digest bytes |
| `Embedder.Scaled` | app.py:83 | `val / 255.0` lies in [0, 1] for a byte value |
| `Embedder.FallbackEmbedding` | app.py:72-90 | the append loop and the `while`/`extend` loop return exactly `FallbackVector(digest)` |
| `Embedder.Extend` | app.py:87-88 | one `extend` pass doubles the length (256 goes to 384) and keeps entry k equal to base value k mod 16 |
| `Embedder.FallbackShape` | app.py:81-90 | the fallback vector has exactly 384 entries, all in [0, 1], repeats with period 16, and starts with the 16 digest values in order |
| `Embedder.Normalize` | app.py:49-62 | the shape normalisation: an array gives its row-major elements whatever its shape, and a value that is neither array nor list gives `[]` |
| `Embedder.NormalizeArray` | app.py:49-55 | an array of any shape gives its row-major elements; a one-row matrix gives its row; a matrix of several non-empty rows gives more than its first row |
| `Embedder.NormalizeList` | app.py:56-59 | a non-empty list of lists gives its first element; a flat list comes back unchanged; the empty list gives `[]` |
| `Embedder.MissingToken` | app.py:33 | `not os.environ.get("HF_TOKEN")`: an unset token is missing, and a token that counts is a non-empty string |
| `Embedder.Embedding` | app.py:28-70 | what `get_embedding` returns: `[]` without a token, 384 entries when the remote call raises, the normalised answer when it returns |
| `Embedder.GetEmbedding` | app.py:28-70 | the method's result is `Embedding(b, text)`: no token gives `[]`, a raise gives the fallback, a returned value gives its normalisation |
| `Embedder.NoTokenNoFallback` | app.py:33-35 | with no token the result is `[]`, whatever the remote model and the digest would give |
| `Embedder.RaisedGivesFallback` | app.py:64-70 | a raising remote call yields the fallback vector of the text's hex digest: 384 entries, entry k being MD5 byte k mod 16 divided by 255, so it is never empty |
| `Embedder.EmptyEmbedding` | app.py:33-62 | the embedding is empty exactly when the token is missing or the remote answer normalises to nothing |
| `VectorIndex.BuildIndex` | app.py:97-101 | one embedding per title, in title order: equal lengths, and `index[i] == Embedding(b, titles[i])` |
| `VectorIndex.LoadOrBuildIndex` | app.py:93-101 | a cached index is returned unchanged, with no check; otherwise the index is built and aligned with the titles |
| `Ranker.Cosine` | app.py:139-143 | the nested `cosine`: 0.0 when either vector has norm zero; otherwise a raise exactly when the lengths differ, else the quotient |
| `Ranker.Score` | app.py:147-151 | an empty entry scores 0.0 without calling `cosine`; scoring raises only on a non-empty entry of another length than the query |
| `Ranker.ComputeSimilarities` | app.py:145-151 | the scoring loop returns `Similarities(q, index, ratio)`: one score per entry, or None when some `cosine` raises |
| `Ranker.SimilaritiesShape` | app.py:139-151 | scoring fails exactly when a non-empty, non-zero entry differs in length from a non-zero query; otherwise there is one score per entry, every zero or empty entry scores 0, and a zero query scores all entries 0 |
| `Ranker.Insert` | app.py:154 | inserting a position into a ranked list adds exactly that position and keeps the list ranked |
| `Ranker.RankPrefix` | app.py:154 | the positions 0..n-1, each once, in stable descending score order |
| `Ranker.Ranking` | app.py:154 | `sorted(range(len(sims)), ..., reverse=True)`: every position once, in stable descending order of score |
| `Ranker.Top` | app.py:154 | `[:k]` of the ranking: min(k, n) positions, still in ranked order |
| `Ranker.RankedUnique` | app.py:154 | two lists of the same positions that are both ranked are equal |
| `Ranker.RankingIsTheStableSort` | app.py:154 | any stable descending ordering of all positions equals `Ranking(sims)`, which is therefore what `sorted(..., reverse=True)` returns |
| `Ranker.TopSelects` | app.py:154 | `[:k]` gives min(k, n) distinct in-range positions, scores non-increasing, equal scores in index order, and every position left out ranks after every chosen one |
| `Ranker.Links` | app.py:155 | the `links` comprehension: an `IndexError` exactly when a chosen position is past the end of `urls` or `titles`, else one link per chosen position |
| `Ranker.LinksAligned` | app.py:155 | when `urls` and `titles` are as long as the scores, link k pairs `urls[i]` and `titles[i]` with `sims[i]` for the same chosen i |
| `Ranker.TieKeepsIndexOrder` | app.py:154 | scores [0.9, 0.1, 0.9] with k = 2 select positions 0 and 2, in that order |
| `Ranker.PlaceholderOutranksNegative` | app.py:145-154 | for every index, an empty entry scores 0.0, ranks before every entry with a negative score, and is among the top k whenever such an entry is |
| `QueryService.AnswerText` | app.py:157 | the `answer` text ends with the question, verbatim, between single quotes |
| `QueryService.Respond` | app.py:114-158 | the handler's result: a 400 exactly for a missing or empty question; a reply echoes the question and holds at most two links |
| `QueryService.Answer` | app.py:114-158 | the handler's steps produce `Respond(question, upload, ...)` |
| `QueryService.MissingQuestionRejected` | app.py:118-119 | a missing or empty question gets a 400, whatever the upload, backend, corpus and index |
| `QueryService.UploadFailureUncaught` | app.py:122-129 | an image upload that raises turns a request with a question into a 500, before the question is embedded |
| `QueryService.EmptyEmbeddingRejected` | app.py:132-134 | a question whose embedding is empty gets a 500 before any scoring |
| `QueryService.ReplyLinks` | app.py:153-158 | a successful reply echoes the question and holds min(2, n) links; link k has the topic link, the title and the score of the same chosen position |
| `QueryService.ReplyOrder` | app.py:153-155 | the links of a reply are for distinct positions with non-increasing scores, and every entry left out scores no more than any link shown |
| `QueryService.AlignedIndexAnswers` | app.py:145-155 | with an index as long as the corpus, a non-empty question whose embedding is non-empty and scores every entry always gets a reply, unless an attached image fails to upload |
| `QueryService.FallbackModeAnswers` | app.py:97-158 | with HF_TOKEN set and the remote model always raising, an index built from the titles and any non-empty question always give a reply, unless an attached image fails to upload |
| `QueryService.NoTokenAlwaysFails` | app.py:132-134 | with HF_TOKEN unset or empty, every non-empty question gets a 500, whatever the remote model would do |
| `Scrape.InWindow` | scrape.py:41 | `START <= str(dt) <= END` on strings, both bounds included |
| `Scrape.PostUrl` | scrape.py:46 | the record URL `BASE/t/slug/id`, whose last segment reads back as the id |
| `Scrape.Keep` | scrape.py:40-47 | the `try` body for one topic: a record only for a topic whose parsed date is in the window, carrying the topic's id, title and that date |
| `Scrape.Origins` | scrape.py:38-47 | the positions of the kept topics are increasing positions of the input |
| `Scrape.OriginsComplete` | scrape.py:38-49 | a position is an origin exactly when its topic is kept |
| `Scrape.FilterTopics` | scrape.py:34-50 | the loop with `try`/`continue` returns `Filtered(topics, parse)` |
| `Scrape.KeptRecord` | scrape.py:40-47 | a kept topic gives a record dated inside the window, with the same id and title and the URL `BASE/t/slug/id`, whose last segment reads back as the id |
| `Scrape.KeepExactly` | scrape.py:39-49 | a topic is kept exactly when its date parses into the window and it has an id, a title and a slug; a missing key or a failed parse skips only that topic |
| `Scrape.FilteredOrigins` | scrape.py:35-50 | the output has one record per kept topic, in input order, built from that topic, so it is no longer than the input |
| `Scrape.FilteredInWindow` | scrape.py:41-46 | every record has `'2025-01-01' <= created_at <= '2025-04-14'` as strings, and its URL names its id |
| `Scrape.FirstEmpty` | scrape.py:54-58 | the first empty page: every earlier page has topics |
| `Scrape.ScrapeAll` | scrape.py:52-65 | the page loop returns the concatenated batches of the pages before the first empty page |
| `Scrape.ScrapedUnfold` | scrape.py:54-63 | an empty first page gives nothing; otherwise the result is the first page's batch followed by the rest; a page with topics but an empty batch does not stop the loop |
| `Scrape.StopsAtEmptyPage` | scrape.py:56-58 | pages after an empty page have no effect |
| `Scrape.ScrapedInWindow` | scrape.py:52-65 | every collected post is dated inside the window |

## Left out

- HTTP glue is left out: Flask routing, the GET responses, `request.get_json`, `jsonify`, `render_template`, CORS and `app.run` (app.py:10-11, 108-117, 160-176, 219-221). `QueryError.Status` gives only the status codes the handlers return.
- The image upload (app.py:122-129, 181-188) is modelled only by its outcome (`Upload`). Base64 decoding, the `uploads` directory and the file write are not modelled. Which images make it raise is not modelled either: bad padding, a non-string value, a failed `makedirs` or `open`. A raise gives a 500 (`UploadFailureUncaught`), and the "always gets a reply" lemmas exclude it.
- File I/O is left out: loading `discourse_posts.json`, reading and writing `title_embeddings.json`, and writing the scraper's output. The cache file is an optional input of `LoadOrBuildIndex`.
- The remote model is left out (app.py:14-16, 38-44). The `InferenceClient` call is a function of the text, so the model assumes it is deterministic. Retries, timeouts and a token changing between calls are not modelled.
- MD5 is a foreign call and is left out. It is the parameter `md5`, whose results are always 16 bytes; `hexdigest()` is modelled by `HexEncode`. If `text.encode()` raised inside the `except` branch, for example on a lone surrogate, the error would escape `get_embedding`; the model does not cover that.
- Floating point is left out. The quotient dot/(|a| |b|) is the parameter `ratio`, so symmetry, self-similarity 1.0 and the range [-1, 1] are not proved. A zero norm is modelled as all entries exactly 0.0, so underflow is ignored. Scores are reals, so NaN ordering is not modelled. `/ 255.0` is exact division.
- QueryService.ReplyLinks: the `similarity` of a link is the unrounded score; `round(..., 3)` is floating-point formatting and is not modelled.
- Ranker.Links: `Link.similarity` holds the unrounded score, for the same reason.
- Ranker.LinksAligned: the similarity it pairs with each link is the unrounded score, for the same reason.
- QueryService.ReplyOrder: its comparisons are between unrounded scores; after `round(..., 3)` a left-out score can exceed a shown value (0.12345 left out against a shown 0.123).
- Dynamic typing is narrowed. The question is an optional string, so other truthy JSON values are not modelled. Topic fields are typed (integer id, string title and slug). Remote answers hold reals: a list whose first element is a list is `NestedList`, and any other list is `FlatList`.
- `fetch_topic_page` is left out (scrape.py:24-32). It is a network request with cookies. A failed request returns `[]`, which is the same as a page past the end of the page sequence. Because the sequence is finite, `ScrapeAll` always stops; a real page source that never returns an empty page keeps `while True` (scrape.py:54) looping forever, which the model does not capture.
- `dateutil`'s `parse` is left out. It is the parameter `parse`, which gives `str(parse(s).date())`, or None where it raises.
- Logging and delays are left out: `print`, and `time.sleep` in both files.
- The context scripts testapi.py and test_deployed.py are left out. They only print the responses of a running server.
