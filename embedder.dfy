/** The embedder of app.py:28-90: a remote feature-extraction call whose
    answer is normalised to one flat vector, and a deterministic fallback
    derived from the MD5 digest of the text when the call raises. */
module Embedder {
  import opened Wrappers

  type Vector = seq<real>

  /** Length of the fallback vector (app.py:87-90). */
  const Dimensions: nat := 384

  /** Bytes in an MD5 digest; its hex form has twice as many characters. */
  const DigestBytes: nat := 16

  predicate IsHexChar(c: char) {
    '0' <= c <= '9' || 'a' <= c <= 'f' || 'A' <= c <= 'F'
  }

  /** 32 hexadecimal characters, of either case as `int(c, 16)` accepts them;
      `hexdigest()` writes the lower-case ones of `HexEncode`. */
  predicate IsHexDigest(s: string) {
    |s| == 2 * DigestBytes && forall i :: 0 <= i < |s| ==> IsHexChar(s[i])
  }

  type HexDigest = s: string | IsHexDigest(s) witness "00000000000000000000000000000000"

  /** `int(c, 16)` for one hexadecimal character. */
  function HexValue(c: char): (v: nat)
    requires IsHexChar(c)
    ensures v < 16
  {
    if '0' <= c <= '9' then (c as int) - ('0' as int)
    else if 'a' <= c <= 'f' then (c as int) - ('a' as int) + 10
    else (c as int) - ('A' as int) + 10
  }

  /** `int(hash_hex[2*j:2*j+2], 16)`: the j-th byte of the digest (app.py:82-83). */
  function ByteAt(digest: HexDigest, j: nat): (b: nat)
    requires j < DigestBytes
    ensures b < 256
  {
    16 * HexValue(digest[2 * j]) + HexValue(digest[2 * j + 1])
  }

  /** An MD5 digest: 16 bytes. */
  predicate IsDigest(bytes: seq<nat>) {
    |bytes| == DigestBytes && forall j :: 0 <= j < |bytes| ==> bytes[j] < 256
  }

  type Digest = bytes: seq<nat> | IsDigest(bytes) witness seq(16, j => 0)

  /** The lower-case hex character `hexdigest()` writes for a nibble. */
  function HexChar(v: nat): (c: char)
    requires v < 16
    ensures IsHexChar(c)
  {
    "0123456789abcdef"[v]
  }

  /** How `hexdigest()` writes 16 digest bytes: two characters per byte,
      high nibble first. */
  function HexEncode(bytes: Digest): (s: HexDigest)
  {
    seq(2 * DigestBytes, i requires 0 <= i < 2 * DigestBytes =>
      if i % 2 == 0 then HexChar(bytes[i / 2] / 16) else HexChar(bytes[i / 2] % 16))
  }

  /** Decoding a hex pair recovers the digest byte it was written from: the
      16 fallback base values are exactly the 16 bytes of the MD5 digest. */
  lemma ByteAtHexEncode(bytes: Digest, j: nat)
    requires j < DigestBytes
    ensures ByteAt(HexEncode(bytes), j) == bytes[j]
  {
    var s := HexEncode(bytes);
    assert s[2 * j] == HexChar(bytes[j] / 16);
    assert s[2 * j + 1] == HexChar(bytes[j] % 16);
    HexCharValue(bytes[j] / 16);
    HexCharValue(bytes[j] % 16);
  }

  lemma HexCharValue(v: nat)
    requires v < 16
    ensures HexValue(HexChar(v)) == v
  {
  }

  /** `val / 255.0` (app.py:83). */
  function Scaled(b: nat): (x: real)
    requires b < 256
    ensures 0.0 <= x <= 1.0
  {
    b as real / 255.0
  }

  /** The fallback vector in closed form: entry k holds the scaled
      value of digest byte k mod 16, for k below 384. */
  function FallbackVector(digest: HexDigest): (v: Vector) {
    seq(Dimensions, k requires 0 <= k < Dimensions => Scaled(ByteAt(digest, k % DigestBytes)))
  }

  /** `get_embedding_fallback(text)` given `md5(text).hexdigest()` (app.py:72-90):
      one value per hex pair, then the list is extended by a prefix of itself
      until it holds 384 entries (16, 32, 64, 128, 256, 384). */
  method FallbackEmbedding(digest: HexDigest) returns (embedding: Vector)
    ensures embedding == FallbackVector(digest)
  {
    embedding := [];
    var i := 0;
    while i < |digest|
      invariant 0 <= i <= |digest| && |embedding| * 2 == i
      invariant forall k :: 0 <= k < |embedding| ==> embedding[k] == Scaled(ByteAt(digest, k))
    {
      embedding := embedding + [Scaled(ByteAt(digest, i / 2))];
      i := i + 2;
    }
    assert forall k :: 0 <= k < |embedding| ==> k % DigestBytes == k;
    while |embedding| < Dimensions
      invariant |embedding| in {16, 32, 64, 128, 256, 384}
      invariant forall k :: 0 <= k < |embedding| ==> embedding[k] == Scaled(ByteAt(digest, k % DigestBytes))
      decreases Dimensions - |embedding|
    {
      embedding := Extend(digest, embedding);
    }
    embedding := embedding[..Dimensions];
  }

  /** One pass of `embedding.extend(embedding[:min(len, 384 - len)])`. */
  method Extend(digest: HexDigest, embedding: Vector) returns (longer: Vector)
    requires |embedding| in {16, 32, 64, 128, 256}
    requires forall k :: 0 <= k < |embedding| ==> embedding[k] == Scaled(ByteAt(digest, k % DigestBytes))
    ensures |longer| == (if |embedding| == 256 then 384 else 2 * |embedding|)
    ensures forall k :: 0 <= k < |longer| ==> longer[k] == Scaled(ByteAt(digest, k % DigestBytes))
  {
    var n := |embedding|;
    var take := if n < Dimensions - n then n else Dimensions - n;
    longer := embedding + embedding[..take];
    forall k | n <= k < |longer|
      ensures longer[k] == Scaled(ByteAt(digest, k % DigestBytes))
    {
      ShiftByPeriod(k - n, n / DigestBytes);
    }
  }

  lemma ShiftByPeriod(j: nat, m: nat)
    ensures (j + m * DigestBytes) % DigestBytes == j % DigestBytes
  {
  }

  /** The fallback vector has exactly 384 entries in [0, 1], repeats the 16
      digest values with period 16, and so starts with them in order. */
  lemma FallbackShape(digest: HexDigest)
    ensures |FallbackVector(digest)| == Dimensions
    ensures forall k :: 0 <= k < Dimensions ==> 0.0 <= FallbackVector(digest)[k] <= 1.0
    ensures forall k :: 0 <= k < Dimensions - DigestBytes ==>
      FallbackVector(digest)[k + DigestBytes] == FallbackVector(digest)[k]
    ensures forall j :: 0 <= j < DigestBytes ==> FallbackVector(digest)[j] == Scaled(ByteAt(digest, j))
  {
    var v := FallbackVector(digest);
    forall k | 0 <= k < Dimensions - DigestBytes
      ensures v[k + DigestBytes] == v[k]
    {
      ShiftByPeriod(k, 1);
    }
  }

  /** Number of elements of an array of the given shape. */
  function Product(shape: seq<nat>): (n: nat) {
    if shape == [] then 1 else shape[0] * Product(shape[1..])
  }

  lemma ProductOfPair(shape: seq<nat>)
    requires |shape| == 2
    ensures Product(shape) == shape[0] * shape[1]
  {
    assert Product(shape[1..][1..]) == 1 by { assert shape[1..][1..] == []; }
    assert Product(shape[1..]) == shape[1];
  }

  /** A numpy array: its shape and its elements in row-major order. */
  datatype NdArray = NdArray(shape: seq<nat>, data: Vector) {
    predicate Valid() {
      |data| == Product(shape)
    }
  }

  type Array = a: NdArray | a.Valid() witness NdArray([], [0.0])

  /** What `feature_extraction` can return (app.py:48-62): an array, a list
      whose first element is a list, a list of numbers (the empty list can be
      written either way), or a value of some other type. */
  datatype Response =
    | ArrayResult(ndarray: Array)
    | NestedList(rows: seq<Vector>)
    | FlatList(values: Vector)
    | OtherValue

  /** The shape normalisation of app.py:49-62: an array gives all of its
      elements in row-major order, whatever its shape; anything that is not
      an array or a list gives nothing. */
  function Normalize(r: Response): (v: Vector)
    ensures r.ArrayResult? ==> v == r.ndarray.data
    ensures r.OtherValue? ==> v == []
  {
    match r
    case ArrayResult(a) =>
      if |a.shape| == 1 then a.data                                       // result.tolist()
      else if |a.shape| == 2 && a.shape[0] == 1 then
        ProductOfPair(a.shape);
        a.data[..a.shape[1]]                                               // result[0].tolist()
      else a.data                                                          // result.flatten().tolist()
    case NestedList(rows) => if |rows| > 0 then rows[0] else []
    case FlatList(values) => values
    case OtherValue => []
  }

  /** Row `i` of a two-dimensional array. */
  function Row(a: Array, i: nat): (row: Vector)
    requires |a.shape| == 2 && i < a.shape[0]
  {
    RowBound(a, i);
    a.data[i * a.shape[1] .. (i + 1) * a.shape[1]]
  }

  lemma RowBound(a: Array, i: nat)
    requires |a.shape| == 2 && i < a.shape[0]
    ensures (i + 1) * a.shape[1] <= |a.data|
  {
    ProductOfPair(a.shape);
    MulMono(i + 1, a.shape[0], a.shape[1]);
  }

  lemma MulMono(x: nat, y: nat, z: nat)
    requires x <= y
    ensures x * z <= y * z
  {
  }

  /** Whatever its shape, an array comes back as all of its elements in
      row-major order: a one-row matrix gives its row, and that row is the
      whole array; a matrix of several rows is flattened, so it is NOT cut
      down to its first row. */
  lemma NormalizeArray(a: Array)
    ensures Normalize(ArrayResult(a)) == a.data
    ensures |Normalize(ArrayResult(a))| == Product(a.shape)
    ensures |a.shape| == 2 && a.shape[0] == 1 ==> Normalize(ArrayResult(a)) == Row(a, 0)
    ensures |a.shape| == 2 && a.shape[0] > 1 && a.shape[1] > 0 ==>
      |Normalize(ArrayResult(a))| > |Row(a, 0)|
  {
    if |a.shape| == 2 {
      ProductOfPair(a.shape);
      if a.shape[0] > 1 && a.shape[1] > 0 {
        MulMono(2, a.shape[0], a.shape[1]);
      }
    }
  }

  /** Lists: a non-empty list whose first element is a list gives that first
      element; any other list comes back unchanged. */
  lemma NormalizeList(rows: seq<Vector>, values: Vector)
    ensures |rows| > 0 ==> Normalize(NestedList(rows)) == rows[0]
    ensures Normalize(NestedList([])) == Normalize(FlatList([])) == []
    ensures Normalize(FlatList(values)) == values
  {
  }

  /** What `feature_extraction` does for one text: it returns a value or raises. */
  datatype RemoteCall = Returned(response: Response) | Raised

  /** The collaborators of `get_embedding`: the `HF_TOKEN` setting, the
      remote model, and the 16 bytes of `hashlib.md5(text.encode())`, whose
      `hexdigest()` is their `HexEncode`. */
  datatype Backend = Backend(
    token: Option<string>,
    featureExtraction: string -> RemoteCall,
    md5: string -> Digest)

  /** `not os.environ.get("HF_TOKEN")` (app.py:33): the token is unset or
      empty, so a token that counts is a non-empty string. */
  predicate MissingToken(b: Backend): (missing: bool)
    ensures b.token.None? ==> missing
    ensures !missing ==> b.token.Some? && |b.token.value| > 0
  {
    b.token.None? || b.token.value == ""
  }

  /** The vector `get_embedding(text)` returns (app.py:28-70): nothing
      without a token, 384 entries when the remote call raises, and the
      normalised answer otherwise. */
  function Embedding(b: Backend, text: string): (v: Vector)
    ensures MissingToken(b) ==> v == []
    ensures !MissingToken(b) && b.featureExtraction(text).Raised? ==> |v| == Dimensions
    ensures !MissingToken(b) && b.featureExtraction(text).Returned? ==>
      v == Normalize(b.featureExtraction(text).response)
  {
    if MissingToken(b) then []
    else match b.featureExtraction(text)
      case Raised => FallbackVector(HexEncode(b.md5(text)))
      case Returned(r) => Normalize(r)
  }

  /** `get_embedding` (app.py:28-70): with no token it gives up with `[]`;
      otherwise the remote answer is normalised, and only an exception sends
      it to the fallback. */
  method GetEmbedding(b: Backend, text: string) returns (e: Vector)
    ensures e == Embedding(b, text)
  {
    if MissingToken(b) {
      return [];
    }
    var result := b.featureExtraction(text);
    match result
    case Raised =>
      var hashHex := HexEncode(b.md5(text));
      e := FallbackEmbedding(hashHex);
    case Returned(r) =>
      e := Normalize(r);
  }

  /** A missing token yields `[]` whatever the remote model and the digest
      would have given: the fallback is not consulted. */
  lemma NoTokenNoFallback(b: Backend, text: string)
    requires MissingToken(b)
    ensures Embedding(b, text) == []
    ensures forall f, h :: Embedding(Backend(b.token, f, h), text) == []
  {
  }

  /** A raising remote call yields the fallback vector of the text's hex
      digest, which is never empty: entry k is digest byte k mod 16 over 255. */
  lemma RaisedGivesFallback(b: Backend, text: string)
    requires !MissingToken(b) && b.featureExtraction(text).Raised?
    ensures Embedding(b, text) == FallbackVector(HexEncode(b.md5(text)))
    ensures |Embedding(b, text)| == Dimensions
    ensures forall k :: 0 <= k < Dimensions ==>
      Embedding(b, text)[k] == Scaled(b.md5(text)[k % DigestBytes])
  {
    forall k | 0 <= k < Dimensions
      ensures Embedding(b, text)[k] == Scaled(b.md5(text)[k % DigestBytes])
    {
      ByteAtHexEncode(b.md5(text), k % DigestBytes);
    }
  }

  /** The only ways to obtain an empty vector: no token, or a remote answer
      that normalises to nothing. */
  lemma EmptyEmbedding(b: Backend, text: string)
    ensures Embedding(b, text) == [] <==>
      MissingToken(b) || (b.featureExtraction(text).Returned? && Normalize(b.featureExtraction(text).response) == [])
  {
  }
}
