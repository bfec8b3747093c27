/** The token chunker and the embedding call of app/llm/embeddings.py.
    The tokenizer (`encode`/`decode` of the embedding model's encoding) and
    the embedding service are foreign code: they are parameters here, and
    nothing is assumed about them. */
module Embeddings {
  import opened Outcomes
  import opened Text

  type Token = nat

  /** An embedding vector: opaque here; only how many there are and their
      order matter. */
  type Vector = seq<real>

  /** The tokenizer of the embedding model. */
  datatype Tokenizer = Tokenizer(encode: string -> seq<Token>, decode: seq<Token> -> string)

  /** The embedding service: one vector per input chunk on success
      (`response.data`), `None` when the call raises. */
  type EmbeddingService = seq<string> -> Option<seq<Vector>>

  /** `chunk_text` accepts either one string or a list of strings. */
  datatype TextInput = Single(text: string) | Many(texts: seq<string>)

  /** The chunk size `create_embeddings` always uses. */
  const EmbeddingChunkTokens: nat := 512

  /** The windows `tokens[i:i + maxTokens]` for `i` in
      `range(0, len(tokens), maxTokens)`. */
  function Windows(tokens: seq<Token>, maxTokens: nat): seq<seq<Token>>
    requires maxTokens > 0
    decreases |tokens|
  {
    if tokens == [] then []
    else if |tokens| <= maxTokens then [tokens]
    else [tokens[..maxTokens]] + Windows(tokens[maxTokens..], maxTokens)
  }

  /** All windows, concatenated in order. */
  function Flatten(windows: seq<seq<Token>>): seq<Token> {
    if windows == [] then [] else windows[0] + Flatten(windows[1..])
  }

  /** Every window holds between 1 and `maxTokens` tokens, and every window
      but the last holds exactly `maxTokens`. */
  lemma {:induction false} WindowsBounded(tokens: seq<Token>, maxTokens: nat)
    requires maxTokens > 0
    ensures forall k :: 0 <= k < |Windows(tokens, maxTokens)| ==>
              1 <= |Windows(tokens, maxTokens)[k]| <= maxTokens
    ensures forall k :: 0 <= k < |Windows(tokens, maxTokens)| - 1 ==>
              |Windows(tokens, maxTokens)[k]| == maxTokens
    decreases |tokens|
  {
    if |tokens| > maxTokens {
      var rest := tokens[maxTokens..];
      WindowsBounded(rest, maxTokens);
      var w := Windows(tokens, maxTokens);
      assert w == [tokens[..maxTokens]] + Windows(rest, maxTokens);
      assert forall k :: 1 <= k < |w| ==> w[k] == Windows(rest, maxTokens)[k - 1];
    }
  }

  /** No gaps and no overlap: the windows, concatenated in order, are
      exactly the token sequence. */
  lemma {:induction false} WindowsPartition(tokens: seq<Token>, maxTokens: nat)
    requires maxTokens > 0
    ensures Flatten(Windows(tokens, maxTokens)) == tokens
    decreases |tokens|
  {
    if |tokens| > maxTokens {
      var rest := tokens[maxTokens..];
      WindowsPartition(rest, maxTokens);
      var w := Windows(tokens, maxTokens);
      assert w[1..] == Windows(rest, maxTokens);
      assert tokens == tokens[..maxTokens] + rest;
    } else if tokens != [] {
      assert Windows(tokens, maxTokens)[1..] == [];
    }
  }

  /** The number of windows is the ceiling of `|tokens| / maxTokens`: enough
      windows of `maxTokens` to hold every token, and one fewer would not
      be. In particular no tokens give no windows. */
  lemma {:induction false} WindowsCount(tokens: seq<Token>, maxTokens: nat)
    requires maxTokens > 0
    ensures |Windows(tokens, maxTokens)| * maxTokens >= |tokens|
    ensures (|Windows(tokens, maxTokens)| - 1) * maxTokens < |tokens| || tokens == []
    ensures |Windows(tokens, maxTokens)| == 0 <==> tokens == []
    ensures |Windows(tokens, maxTokens)| == (|tokens| + maxTokens - 1) / maxTokens
    decreases |tokens|
  {
    var n, m := |tokens|, maxTokens;
    var c := |Windows(tokens, m)|;
    if n > m {
      var rest := tokens[m..];
      WindowsCount(rest, m);
      var c' := |Windows(rest, m)|;
      assert c == c' + 1;
      assert c * m == c' * m + m;
      assert (c - 1) * m == c' * m;
    }
    CeilingUnique(n, m, c);
  }

  /** `c` windows of `m` tokens hold `n` tokens with fewer than `m` to spare
      exactly when `c` is the ceiling of `n / m`. */
  lemma CeilingUnique(n: nat, m: nat, c: nat)
    requires m > 0 && c * m >= n && (n == 0 ==> c == 0) && (n > 0 ==> (c - 1) * m < n)
    ensures c == (n + m - 1) / m
  {
    var q, r := (n + m - 1) / m, (n + m - 1) % m;
    assert n + m - 1 == q * m + r && 0 <= r < m;
    if n == 0 {
      assert q == 0;
    } else {
      if c > q {
        MulMonotonic(q, c - 1, m);
        assert false;
      }
      if c < q {
        MulMonotonic(c, q - 1, m);
        assert false;
      }
    }
  }

  lemma MulMonotonic(a: nat, b: nat, m: nat)
    requires a <= b
    ensures a * m <= b * m
  {
  }

  /** Window `k` is the slice `tokens[k*maxTokens : (k+1)*maxTokens]`,
      cut at the end of the sequence as Python slicing does. */
  lemma {:induction false} WindowAt(tokens: seq<Token>, maxTokens: nat, k: nat)
    requires maxTokens > 0 && k < |Windows(tokens, maxTokens)|
    ensures k * maxTokens < |tokens|
    ensures Windows(tokens, maxTokens)[k] ==
              tokens[k * maxTokens .. if (k + 1) * maxTokens <= |tokens| then (k + 1) * maxTokens else |tokens|]
    decreases |tokens|
  {
    var m := maxTokens;
    if k > 0 {
      var rest := tokens[m..];
      assert |tokens| > m;
      WindowAt(rest, m, k - 1);
      assert Windows(tokens, m)[k] == Windows(rest, m)[k - 1];
      assert (k - 1) * m + m == k * m;
      assert k * m + m == (k + 1) * m;
    }
  }

  /** The text `chunk_text` tokenizes: a list input is first joined with
      single spaces. */
  function InputText(input: TextInput): (s: string)
    ensures input.Single? ==> s == input.text
    ensures input.Many? && |input.texts| == 1 ==> s == input.texts[0]
    ensures input.Many? && |input.texts| >= 2 ==>
              s == input.texts[0] + " " + Join(input.texts[1..], " ")
  {
    match input
    case Single(s) => s
    case Many(texts) => Join(texts, " ")
  }

  /** `chunk_text(text, max_tokens)`: one decoded string per token window,
      in window order. */
  function ChunkText(input: TextInput, tokenizer: Tokenizer, maxTokens: nat): (chunks: seq<string>)
    requires maxTokens > 0
    ensures |chunks| == |Windows(tokenizer.encode(InputText(input)), maxTokens)|
    ensures forall k :: 0 <= k < |chunks| ==>
              chunks[k] == tokenizer.decode(Windows(tokenizer.encode(InputText(input)), maxTokens)[k])
  {
    var windows := Windows(tokenizer.encode(InputText(input)), maxTokens);
    seq(|windows|, k requires 0 <= k < |windows| => tokenizer.decode(windows[k]))
  }

  /** `create_embeddings(text)`: chunk with 512 tokens per chunk and send all
      chunks to the embedding service in one call. */
  function CreateEmbeddings(input: TextInput, tokenizer: Tokenizer, service: EmbeddingService): Option<seq<Vector>> {
    service(ChunkText(input, tokenizer, EmbeddingChunkTokens))
  }

  /** The service is called once, with the chunks of 512 tokens; if it
      keeps its contract (one vector per chunk), the number of vectors is the
      ceiling of the token count over 512. */
  lemma EmbeddingCount(input: TextInput, tokenizer: Tokenizer, service: EmbeddingService)
    requires forall chunks :: service(chunks).Some? ==> |service(chunks).value| == |chunks|
    requires CreateEmbeddings(input, tokenizer, service).Some?
    ensures CreateEmbeddings(input, tokenizer, service) == service(ChunkText(input, tokenizer, 512))
    ensures |CreateEmbeddings(input, tokenizer, service).value| ==
              (|tokenizer.encode(InputText(input))| + 511) / 512
  {
    WindowsCount(tokenizer.encode(InputText(input)), 512);
  }
}
