/** The POST handlers `root` (app.py:108-158) and `answer` (app.py:160-217),
    which run the same steps: validate the question, embed it, score the
    title index, keep the two best positions and build the links. */
module QueryService {
  import opened Wrappers
  import opened Embedder
  import opened Ranker
  import opened Corpus

  /** `sorted(...)[:2]` (app.py:154, 213). */
  const TopCount: nat := 2

  /** The error responses: 400 for a missing question, 500 when the
      question cannot be embedded, and the 500 Flask answers for an
      exception the handler does not catch. */
  datatype QueryError = QuestionRequired | EmbeddingFailed | Uncaught {
    function Status(): int {
      if QuestionRequired? then 400 else 500
    }
  }

  /** How the optional image upload (app.py:122-129, 181-188) ended. It runs
      only when the `image` field is truthy, after the question is checked and
      before it is embedded. Base64 decoding and the file writes are not
      modelled, only whether they raised (bad padding at app.py:125, a value
      that is not a string, a failed `makedirs` or `open`); the handler does
      not catch that. */
  datatype Upload = NoImage | ImageSaved | ImageFailed

  datatype Reply = Reply(answer: string, links: seq<Link>)

  /** The `answer` text (app.py:157, 216): the question, verbatim, between
      single quotes at the end of a fixed sentence. */
  function AnswerText(question: string): (text: string)
    ensures |text| > |question| + 1
    ensures text[|text| - |question| - 2] == '\'' && text[|text| - 1] == '\''
    ensures text[|text| - |question| - 1 .. |text| - 1] == question
  {
    "Here are the most relevant discussions for: '" + question + "'"
  }

  /** The reply to one POST with JSON field `question` (None when absent),
      given how the image upload ended and the corpus and title index in
      memory. A missing question is the only 400, and a reply echoes the
      question and holds at most two links. */
  function Respond(question: Option<string>, upload: Upload, b: Backend, ratio: (Vector, Vector) -> real,
                   posts: seq<Post>, index: seq<Vector>): (r: Result<Reply, QueryError>)
    ensures r == Failure(QuestionRequired) <==> question.None? || question.value == ""
    ensures r.Success? ==> question.Some? && r.value.answer == AnswerText(question.value)
    ensures r.Success? ==> |r.value.links| <= TopCount
  {
    if question.None? || question.value == "" then Failure(QuestionRequired)
    else if upload.ImageFailed? then Failure(Uncaught)
    else
      var q := Embedding(b, question.value);
      if q == [] then Failure(EmbeddingFailed)
      else match Similarities(q, index, ratio)
        case None => Failure(Uncaught)
        case Some(sims) =>
          TopSelects(sims, TopCount);
          match Links(Urls(posts), Titles(posts), sims, Top(sims, TopCount))
          case None => Failure(Uncaught)
          case Some(links) => Success(Reply(AnswerText(question.value), links))
  }

  /** The handler body (app.py:114-158, 173-217). */
  method Answer(question: Option<string>, upload: Upload, b: Backend, ratio: (Vector, Vector) -> real,
                posts: seq<Post>, index: seq<Vector>) returns (r: Result<Reply, QueryError>)
    ensures r == Respond(question, upload, b, ratio, posts, index)
  {
    if question.None? || question.value == "" {
      return Failure(QuestionRequired);
    }
    if upload.ImageFailed? {
      return Failure(Uncaught);
    }
    var q := GetEmbedding(b, question.value);
    if q == [] {
      return Failure(EmbeddingFailed);
    }
    var scored := ComputeSimilarities(q, index, ratio);
    if scored.None? {
      return Failure(Uncaught);
    }
    var sims := scored.value;
    var top2 := Top(sims, TopCount);
    TopSelects(sims, TopCount);
    var links := Links(Urls(posts), Titles(posts), sims, top2);
    if links.None? {
      return Failure(Uncaught);
    }
    return Success(Reply(AnswerText(question.value), links.value));
  }

  /** A missing or empty question is refused with 400 before the image is
      looked at or anything is embedded: the answer is the same whatever the
      upload, backend, corpus or index. */
  lemma MissingQuestionRejected(question: Option<string>, upload: Upload, b: Backend, ratio: (Vector, Vector) -> real,
                                posts: seq<Post>, index: seq<Vector>)
    requires question.None? || question.value == ""
    ensures Respond(question, upload, b, ratio, posts, index) == Failure(QuestionRequired)
    ensures Respond(question, upload, b, ratio, posts, index).error.Status() == 400
  {
  }

  /** An image upload that raises ends a request with a question in a 500
      before the question is embedded, whatever the backend and the index. */
  lemma UploadFailureUncaught(question: string, b: Backend, ratio: (Vector, Vector) -> real,
                              posts: seq<Post>, index: seq<Vector>)
    requires question != ""
    ensures Respond(Some(question), ImageFailed, b, ratio, posts, index) == Failure(Uncaught)
    ensures Respond(Some(question), ImageFailed, b, ratio, posts, index).error.Status() == 500
  {
  }

  /** A question whose embedding is empty is refused with 500 before any
      entry is scored, whatever the index holds. */
  lemma EmptyEmbeddingRejected(question: string, upload: Upload, b: Backend, ratio: (Vector, Vector) -> real,
                               posts: seq<Post>, index: seq<Vector>)
    requires question != "" && !upload.ImageFailed? && Embedding(b, question) == []
    ensures Respond(Some(question), upload, b, ratio, posts, index) == Failure(EmbeddingFailed)
    ensures Respond(Some(question), upload, b, ratio, posts, index).error.Status() == 500
  {
  }

  /** The scores a question gets against the index, when none raises. */
  function Scores(question: string, b: Backend, ratio: (Vector, Vector) -> real, index: seq<Vector>): (sims: Option<seq<real>>) {
    Similarities(Embedding(b, question), index, ratio)
  }

  /** A successful reply echoes the question and holds min(2, n) links, one
      per chosen position; link k pairs the link and the title of the same
      topic with that topic's score. */
  lemma ReplyLinks(question: string, upload: Upload, b: Backend, ratio: (Vector, Vector) -> real,
                   posts: seq<Post>, index: seq<Vector>)
    requires Respond(Some(question), upload, b, ratio, posts, index).Success?
    ensures Scores(question, b, ratio, index).Some?
    ensures var sims := Scores(question, b, ratio, index).value;
      var top := Top(sims, TopCount);
      var reply := Respond(Some(question), upload, b, ratio, posts, index).value;
      && reply.answer == AnswerText(question)
      && |sims| == |index|
      && |reply.links| == |top| == (if |index| < TopCount then |index| else TopCount)
      && (forall k :: 0 <= k < |top| ==>
            top[k] < |posts| && top[k] < |sims| &&
            reply.links[k] == Link(TopicLink(posts[top[k]].id), posts[top[k]].title, sims[top[k]]))
  {
    SimilaritiesShape(Embedding(b, question), index, ratio);
    TopSelects(Scores(question, b, ratio, index).value, TopCount);
  }

  /** The links of a successful reply are for distinct positions, best
      first, and every entry left out scores no more than any link shown. */
  lemma ReplyOrder(question: string, upload: Upload, b: Backend, ratio: (Vector, Vector) -> real,
                   posts: seq<Post>, index: seq<Vector>)
    requires Respond(Some(question), upload, b, ratio, posts, index).Success?
    ensures Scores(question, b, ratio, index).Some?
    ensures var sims := Scores(question, b, ratio, index).value;
      var top := Top(sims, TopCount);
      var links := Respond(Some(question), upload, b, ratio, posts, index).value.links;
      && |links| == |top|
      && (forall k, m :: 0 <= k < m < |top| ==> top[k] != top[m] && links[k].similarity >= links[m].similarity)
      && (forall k, j :: 0 <= k < |top| && 0 <= j < |sims| && j !in top ==> sims[j] <= links[k].similarity)
  {
    var sims := Scores(question, b, ratio, index).value;
    TopSelects(sims, TopCount);
    var top := Top(sims, TopCount);
    var links := Respond(Some(question), upload, b, ratio, posts, index).value.links;
    assert links == Links(Urls(posts), Titles(posts), sims, top).value;
    forall k, j | 0 <= k < |top| && 0 <= j < |sims| && j !in top
      ensures sims[j] <= links[k].similarity
    {
      assert Before(sims, top[k], j);
    }
  }

  /** With an index aligned to the corpus (the build branch), a non-empty
      question whose embedding is non-empty and scores every entry is always
      answered, unless the request carried an image whose upload raised. An
      empty embedding scores every entry too, but gets a 500 first. */
  lemma AlignedIndexAnswers(question: string, upload: Upload, b: Backend, ratio: (Vector, Vector) -> real,
                            posts: seq<Post>, index: seq<Vector>)
    requires question != "" && !upload.ImageFailed? && Embedding(b, question) != []
    requires Similarities(Embedding(b, question), index, ratio).Some?
    requires |index| == |posts|
    ensures Respond(Some(question), upload, b, ratio, posts, index).Success?
  {
    var q := Embedding(b, question);
    SimilaritiesShape(q, index, ratio);
    var sims := Similarities(q, index, ratio).value;
    TopSelects(sims, TopCount);
    LinksAligned(Urls(posts), Titles(posts), sims, Top(sims, TopCount));
  }

  /** With HF_TOKEN set and the remote model raising on every call, an index
      built from the corpus titles holds fallback vectors of length 384, the
      question's fallback vector has the same length, and every non-empty
      question is answered, unless the request carried an image whose upload
      raised. Without the token there is no fallback (`NoTokenAlwaysFails`). */
  lemma FallbackModeAnswers(question: string, upload: Upload, b: Backend, ratio: (Vector, Vector) -> real,
                            posts: seq<Post>, index: seq<Vector>)
    requires question != "" && !upload.ImageFailed?
    requires !MissingToken(b) && forall t :: b.featureExtraction(t).Raised?
    requires |index| == |posts|
    requires forall i :: 0 <= i < |index| ==> index[i] == Embedding(b, posts[i].title)
    ensures Respond(Some(question), upload, b, ratio, posts, index).Success?
  {
    RaisedGivesFallback(b, question);
    var q := Embedding(b, question);
    forall i | 0 <= i < |index|
      ensures |index[i]| == |q|
    {
      RaisedGivesFallback(b, posts[i].title);
    }
    SimilaritiesShape(q, index, ratio);
    AlignedIndexAnswers(question, upload, b, ratio, posts, index);
  }

  /** Without HF_TOKEN every non-empty question gets a 500, whatever the
      remote model would do: the fallback is never reached, so an unset token
      is not covered by it. */
  lemma NoTokenAlwaysFails(question: string, upload: Upload, b: Backend, ratio: (Vector, Vector) -> real,
                           posts: seq<Post>, index: seq<Vector>)
    requires question != "" && !upload.ImageFailed? && MissingToken(b)
    ensures Respond(Some(question), upload, b, ratio, posts, index) == Failure(EmbeddingFailed)
    ensures Respond(Some(question), upload, b, ratio, posts, index).error.Status() == 500
  {
    NoTokenNoFallback(b, question);
    EmptyEmbeddingRejected(question, upload, b, ratio, posts, index);
  }
}
