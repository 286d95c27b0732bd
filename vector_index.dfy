/** The title index of app.py:92-105: one embedding per corpus title, either
    read back from the cache file or computed title by title. */
module VectorIndex {
  import opened Wrappers
  import opened Embedder

  /** The loop of app.py:97-101: `get_embedding(title)` for each title in
      order, appended to `title_embeddings`. An empty embedding is kept as a
      placeholder at its position. */
  method BuildIndex(b: Backend, titles: seq<string>) returns (index: seq<Vector>)
    ensures |index| == |titles|
    ensures forall i :: 0 <= i < |titles| ==> index[i] == Embedding(b, titles[i])
  {
    index := [];
    for i := 0 to |titles|
      invariant |index| == i
      invariant forall k :: 0 <= k < i ==> index[k] == Embedding(b, titles[k])
    {
      var vec := GetEmbedding(b, titles[i]);
      index := index + [vec];
    }
  }

  /** app.py:93-101: the cached index, when the file exists, is used as it
      is, with no check against the titles; otherwise the index is built. */
  method LoadOrBuildIndex(b: Backend, titles: seq<string>, cached: Option<seq<Vector>>)
    returns (index: seq<Vector>)
    ensures cached.Some? ==> index == cached.value
    ensures cached.None? ==> |index| == |titles|
    ensures cached.None? ==> forall i :: 0 <= i < |titles| ==> index[i] == Embedding(b, titles[i])
  {
    match cached
    case Some(loaded) =>
      index := loaded;
    case None =>
      index := BuildIndex(b, titles);
  }
}
