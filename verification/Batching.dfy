/** The bounded flat buffer between the chunk loop and the corpus, the int indices computed for it,
    and the indexing loop. */
module Batching {
  import opened Options
  import opened Ints
  import opened ChunkBatch

  /** The largest batch size whose buffer an int can index. */
  const MAX_BATCH_SIZE: nat := 0x80_0000

  // ---- the flat buffer ----

  /** Where the buffer code puts token t of row `used`. */
  function FlatIndex(used: nat, t: nat): nat {
    used * MAX_TOKENS_PER_CHUNK + t
  }

  /** The first `used` rows of the flat buffer: row k starts at k * MAX_TOKENS_PER_CHUNK and holds
      counts[k] tokens. */
  ghost function Rows(tokens: seq<string>, counts: seq<nat>, used: nat): (r: seq<Document>)
    requires used <= |counts| && |counts| * MAX_TOKENS_PER_CHUNK <= |tokens|
    requires forall k :: 0 <= k < used ==> counts[k] <= MAX_TOKENS_PER_CHUNK
    ensures |r| == used
  {
    if used == 0 then []
    else Rows(tokens, counts, used - 1)
         + [tokens[FlatIndex(used - 1, 0)..FlatIndex(used - 1, counts[used - 1])]]
  }

  lemma {:induction false} RowsFrame(tokens: seq<string>, counts: seq<nat>,
                                     tokens': seq<string>, counts': seq<nat>, used: nat)
    requires used <= |counts| == |counts'| && |counts| * MAX_TOKENS_PER_CHUNK <= |tokens| == |tokens'|
    requires forall k :: 0 <= k < used ==> counts[k] <= MAX_TOKENS_PER_CHUNK && counts'[k] == counts[k]
    requires forall x :: 0 <= x < used * MAX_TOKENS_PER_CHUNK ==> tokens'[x] == tokens[x]
    ensures Rows(tokens', counts', used) == Rows(tokens, counts, used)
  {
    if used > 0 {
      RowsFrame(tokens, counts, tokens', counts', used - 1);
      var lo, hi := FlatIndex(used - 1, 0), FlatIndex(used - 1, counts[used - 1]);
      assert tokens'[lo..hi] == tokens[lo..hi];
    }
  }

  /** The copy loop; `top` is the largest index it computes. */
  method CopyTokens(tokens: array<string>, base: nat, doc: Document) returns (ghost top: nat)
    requires doc != [] && base + |doc| <= tokens.Length
    modifies tokens
    ensures forall x :: 0 <= x < base ==> tokens[x] == old(tokens[x])
    ensures tokens[base..base + |doc|] == doc
    ensures top == base + |doc| - 1
  {
    top := base;
    for t := 0 to |doc|
      invariant forall x :: 0 <= x < base ==> tokens[x] == old(tokens[x])
      invariant tokens[base..base + t] == doc[..t]
      invariant top == if t == 0 then base else base + (t - 1)
    {
      tokens[base + t] := doc[t];
      top := base + t;
    }
  }

  /** Copies one chunk's tokens into row `used`; the rows before it stay as they are. `top` is the
      largest index the copy computes. */
  method WriteRow(tokens: array<string>, counts: array<nat>, used: nat, doc: Document) returns (ghost top: nat)
    requires used < counts.Length && tokens.Length == counts.Length * MAX_TOKENS_PER_CHUNK
    requires 0 < |doc| <= MAX_TOKENS_PER_CHUNK && forall k :: 0 <= k < used ==> counts[k] <= MAX_TOKENS_PER_CHUNK
    modifies tokens, counts
    ensures forall k :: 0 <= k < used + 1 ==> counts[k] <= MAX_TOKENS_PER_CHUNK
    ensures Rows(tokens[..], counts[..], used + 1) == old(Rows(tokens[..], counts[..], used)) + [doc]
    ensures top == FlatIndex(used, |doc| - 1)
    ensures counts.Length <= MAX_BATCH_SIZE ==> top <= INT_MAX
  {
    ghost var tokens0, counts0 := tokens[..], counts[..];
    top := CopyTokens(tokens, used * MAX_TOKENS_PER_CHUNK, doc);
    counts[used] := |doc|;
    RowsFrame(tokens0, counts0, tokens[..], counts[..], used);
  }

  // ---- the indices a run computes ----

  /** The buffer row that is next after `n` documents. */
  ghost function RowAfter(n: nat, batchSize: nat): (r: nat)
    requires batchSize > 0
    ensures r < batchSize
  {
    if n == 0 then 0
    else
      var used := RowAfter(n - 1, batchSize) + 1;
      if used >= batchSize then 0 else used
  }

  /** The largest buffer index computed while taking the documents, 0 when there are none. */
  ghost function LargestIndex(docs: seq<Document>, batchSize: nat): nat
    requires batchSize > 0
  {
    if docs == [] then 0
    else
      var n := |docs| - 1;
      Max(LargestIndex(docs[..n], batchSize), LastIndex(RowAfter(n, batchSize), docs[n]))
  }

  function LastIndex(used: nat, doc: Document): nat {
    FlatIndex(used, if doc == [] then 0 else |doc| - 1)
  }

  /** One more document, on the row to fill next and on the largest index. */
  lemma TrackNext(docs: seq<Document>, doc: Document, batchSize: nat)
    requires batchSize > 0 && doc != []
    ensures var used := RowAfter(|docs|, batchSize);
            && RowAfter(|docs| + 1, batchSize) == (if used + 1 >= batchSize then 0 else used + 1)
            && LargestIndex(docs + [doc], batchSize)
               == Max(LargestIndex(docs, batchSize), FlatIndex(used, |doc| - 1))
  {
    assert (docs + [doc])[..|docs|] == docs;
  }

  class Batcher {
    var allTokens: array<string>
    var tokenCounts: array<nat>
    var batchUsed: nat
    const batchSize: nat

    /** The batches handed to the corpus so far, all documents taken so far, and the largest buffer
        index computed so far. */
    ghost var batches: seq<seq<Document>>
    ghost var taken: seq<Document>
    ghost var largest: nat

    /** The rows in use fit their places, and every batch handed over was a full one. */
    ghost predicate Shaped()
      reads `batchUsed, `batches, `allTokens, `tokenCounts, allTokens, tokenCounts
    {
      && batchSize > 0 && tokenCounts.Length == batchSize && allTokens.Length == batchSize * MAX_TOKENS_PER_CHUNK
      && batchUsed <= batchSize
      && (forall k :: 0 <= k < batchUsed ==> tokenCounts[k] <= MAX_TOKENS_PER_CHUNK)
      && (forall k :: 0 <= k < |batches| ==> |batches[k]| == batchSize)
    }

    /** The documents waiting in the buffer. */
    ghost function Pending(): (r: seq<Document>)
      requires Shaped()
      reads `batchUsed, `batches, `allTokens, `tokenCounts, allTokens, tokenCounts
      ensures |r| == batchUsed
    {
      Rows(allTokens[..], tokenCounts[..], batchUsed)
    }

    /** Nothing is lost: the corpus has the documents taken, except those still waiting; the next row
        and the indices computed are those of the documents taken. */
    ghost predicate Valid()
      reads this, allTokens, tokenCounts
    {
      && Shaped() && batchUsed < batchSize
      && taken == Flatten(batches) + Pending()
      && batchUsed == RowAfter(|taken|, batchSize) && largest == LargestIndex(taken, batchSize)
    }

    constructor (batchSize: nat)
      requires batchSize > 0
      ensures Valid() && fresh(allTokens) && fresh(tokenCounts)
      ensures this.batchSize == batchSize && batches == [] && taken == [] && largest == 0
    {
      this.batchSize := batchSize;
      allTokens := new string[batchSize * MAX_TOKENS_PER_CHUNK](_ => "");
      tokenCounts := new nat[batchSize](_ => 0);
      batchUsed, largest := 0, 0;
      batches, taken := [], [];
    }

    /** Puts one chunk's tokens in the next row. */
    method Store(doc: Document)
      requires Shaped() && batchUsed < batchSize && 0 < |doc| <= MAX_TOKENS_PER_CHUNK
      modifies this`batchUsed, this`largest, allTokens, tokenCounts
      ensures Shaped() && batchUsed == old(batchUsed) + 1
      ensures Pending() == old(Pending()) + [doc]
      ensures largest == Max(old(largest), FlatIndex(old(batchUsed), |doc| - 1))
      ensures batchSize <= MAX_BATCH_SIZE && old(largest) <= INT_MAX ==> largest <= INT_MAX
    {
      hide Rows, FlatIndex;
      ghost var top := WriteRow(allTokens, tokenCounts, batchUsed, doc);
      largest := Max(largest, top);
      batchUsed := batchUsed + 1;
    }

    /** Hands the buffer over when it is full. */
    method Flush()
      requires Shaped()
      modifies this`batchUsed, this`batches
      ensures Shaped() && Flatten(batches) + Pending() == old(Flatten(batches) + Pending())
      ensures batchUsed == if old(batchUsed) >= batchSize then 0 else old(batchUsed)
    {
      if batchUsed >= batchSize {
        FlattenConcat(batches, [Pending()]);
        FlattenOne(Pending());
        batches := batches + [Pending()];
        batchUsed := 0;
        assert Pending() == [];
      }
    }

    /** Takes the tokens of one chunk. */
    method Add(doc: Document)
      requires Valid() && 0 < |doc| <= MAX_TOKENS_PER_CHUNK
      modifies this`batchUsed, this`batches, this`taken, this`largest, allTokens, tokenCounts
      ensures Valid() && taken == old(taken) + [doc]
      ensures batchSize <= MAX_BATCH_SIZE && old(largest) <= INT_MAX ==> largest <= INT_MAX
    {
      hide Shaped, Pending, Flatten, RowAfter, LargestIndex;
      assert batchSize > 0 && |taken| >= 0;
      TrackNext(taken, doc, batchSize);
      Store(doc);
      taken := taken + [doc];
      assert taken == Flatten(batches) + Pending();
      Flush();
    }

    /** Hands over what is left, if anything. */
    method Finish()
      requires Valid()
      modifies this`batchUsed, this`batches
      ensures batchUsed == 0 && Flatten(batches) == taken && largest == LargestIndex(taken, batchSize)
      ensures forall k :: 0 <= k < |batches| ==> 0 < |batches[k]| <= batchSize
      ensures forall k :: 0 <= k < |batches| - 1 ==> |batches[k]| == batchSize
    {
      hide Flatten, Rows, RowAfter, LargestIndex;
      if batchUsed > 0 {
        FlattenConcat(batches, [Pending()]);
        FlattenOne(Pending());
        batches := batches + [Pending()];
        batchUsed := 0;
      }
    }
  }

  // ---- the loops ----

  /** The loop over one file's chunks. */
  method IndexFile(b: Batcher, content: seq<byte>, chunkSize: nat, tok: Tokenizer, oom: nat -> bool) returns (n: nat)
    requires b.Valid() && chunkSize > 0
    modifies b`batchUsed, b`batches, b`taken, b`largest, b.allTokens, b.tokenCounts
    ensures b.Valid() && n == |FileDocs(content, 0, chunkSize, tok, oom)|
    ensures b.taken == old(b.taken) + FileDocs(content, 0, chunkSize, tok, oom)
    ensures b.batchSize <= MAX_BATCH_SIZE && old(b.largest) <= INT_MAX ==> b.largest <= INT_MAX
  {
    hide Batcher.Valid;
    ghost var docs := FileDocs(content, 0, chunkSize, tok, oom);
    var offset: nat := 0;
    n := 0;
    while offset < |content|
      invariant b.Valid()
      invariant n + |FileDocs(content, offset, chunkSize, tok, oom)| == |docs|
      invariant b.taken + FileDocs(content, offset, chunkSize, tok, oom) == old(b.taken) + docs
      invariant b.batchSize <= MAX_BATCH_SIZE && old(b.largest) <= INT_MAX ==> b.largest <= INT_MAX
      decreases |content| - offset
    {
      var end := FindEnd(content, offset, chunkSize);
      var doc := Tokenize(tok, content[offset..end]);
      FileDocsStep(content, offset, chunkSize, tok, oom, end, b.taken);
      if !oom(offset) && doc != [] {
        b.Add(doc);
        n := n + 1;
      }
      offset := end;
    }
  }

  /** The indexing loop over all files. Every non-empty chunk is handed over once, in order, in full
      batches except the last; `largest` is the largest buffer index the loop computes. */
  method IndexFiles(files: seq<Option<seq<byte>>>, chunkSize: nat, batchSize: nat, tok: Tokenizer,
                    oom: (nat, nat) -> bool)
    returns (totalChunks: nat, ghost batches: seq<seq<Document>>, ghost largest: nat)
    requires chunkSize > 0 && batchSize > 0
    ensures Flatten(batches) == AllDocs(files, chunkSize, tok, oom)
    ensures totalChunks == |AllDocs(files, chunkSize, tok, oom)|
    ensures forall k :: 0 <= k < |batches| ==> 0 < |batches[k]| <= batchSize
    ensures forall k :: 0 <= k < |batches| - 1 ==> |batches[k]| == batchSize
    ensures largest == LargestIndex(AllDocs(files, chunkSize, tok, oom), batchSize)
    ensures batchSize <= MAX_BATCH_SIZE ==> largest <= INT_MAX
  {
    hide Batcher.Valid, AllDocs, LargestIndex;
    var b := new Batcher(batchSize);
    totalChunks := Collect(b, files, chunkSize, tok, oom);
    b.Finish();
    batches, largest := b.batches, b.largest;
  }

  /** The loop over the files. */
  method Collect(b: Batcher, files: seq<Option<seq<byte>>>, chunkSize: nat, tok: Tokenizer, oom: (nat, nat) -> bool)
    returns (totalChunks: nat)
    requires b.Valid() && chunkSize > 0 && b.taken == [] && b.largest == 0
    modifies b`batchUsed, b`batches, b`taken, b`largest, b.allTokens, b.tokenCounts
    ensures b.Valid() && b.taken == AllDocs(files, chunkSize, tok, oom)
    ensures totalChunks == |AllDocs(files, chunkSize, tok, oom)|
    ensures b.batchSize <= MAX_BATCH_SIZE ==> b.largest <= INT_MAX
  {
    hide Batcher.Valid;
    totalChunks := 0;
    for f := 0 to |files|
      invariant b.Valid() && (b.batchSize <= MAX_BATCH_SIZE ==> b.largest <= INT_MAX)
      invariant b.taken == AllDocs(files[..f], chunkSize, tok, oom) && totalChunks == |b.taken|
    {
      AllDocsNext(files, f, chunkSize, tok, oom);
      if files[f].Some? {
        var n := IndexFile(b, files[f].value, chunkSize, tok, (offset: nat) => oom(f, offset));
        totalChunks := totalChunks + n;
      }
    }
    assert files[..|files|] == files;
  }

  /** One iteration of the file loop, on the documents so far. */
  lemma AllDocsNext(files: seq<Option<seq<byte>>>, f: nat, chunkSize: nat, tok: Tokenizer, oom: (nat, nat) -> bool)
    requires f < |files| && chunkSize > 0
    ensures AllDocs(files[..f + 1], chunkSize, tok, oom)
         == AllDocs(files[..f], chunkSize, tok, oom)
            + (if files[f].None? then []
               else FileDocs(files[f].value, 0, chunkSize, tok, (offset: nat) => oom(f, offset)))
  {
    assert files[..f + 1][..f] == files[..f];
  }

  // ---- when the source's int arithmetic is safe ----

  /** Every buffer index of this run is an int. */
  ghost predicate IndicesFit(files: seq<Option<seq<byte>>>, chunkSize: nat, batchSize: nat, tok: Tokenizer,
                             oom: (nat, nat) -> bool)
  {
    chunkSize > 0 && batchSize > 0 ==> LargestIndex(AllDocs(files, chunkSize, tok, oom), batchSize) <= INT_MAX
  }

  lemma {:induction false} LargestBound(docs: seq<Document>, batchSize: nat)
    requires 0 < batchSize <= MAX_BATCH_SIZE && Sized(docs)
    ensures LargestIndex(docs, batchSize) <= INT_MAX
  {
    if docs != [] { LargestBound(docs[..|docs| - 1], batchSize); }
  }

  lemma {:induction false} FirstRows(n: nat, batchSize: nat)
    requires n < batchSize
    ensures RowAfter(n, batchSize) == n
  {
    if n > 0 { FirstRows(n - 1, batchSize); }
  }

  /** A run that leaves int: with chunk size 1 a 24 MB file of two letters and a brace over and over,
      well below the file size limit, fills row 2^23, whose index is 2^31. */
  lemma OverflowingRun(batchSize: nat, tok: Tokenizer, x: byte, y: byte) returns (content: seq<byte>)
    requires batchSize > MAX_BATCH_SIZE && y != CLOSE_BRACE && tok([x, y, CLOSE_BRACE]) != []
    ensures |content| == 3 * MAX_BATCH_SIZE + 3 <= MAX_FILE_SIZE
    ensures !IndicesFit([Some(content)], 1, batchSize, tok, (_: nat, _: nat) => false)
  {
    hide Triples, FileDocs, AllDocs, LargestIndex, RowAfter;
    content := Triples(x, y, MAX_BATCH_SIZE + 1);
    var oom := (_: nat, _: nat) => false;
    var docs := AllDocs([Some(content)], 1, tok, oom);
    OneFile(content, tok, oom);
    TriplesDocs(x, y, MAX_BATCH_SIZE + 1, 0, tok);
    FirstRows(MAX_BATCH_SIZE, batchSize);
    LastRowIndex(docs, batchSize);
  }

  lemma LastRowIndex(docs: seq<Document>, batchSize: nat)
    requires docs != [] && batchSize > 0
    ensures LargestIndex(docs, batchSize) >= FlatIndex(RowAfter(|docs| - 1, batchSize), 0)
  {
  }

  lemma OneFile(content: seq<byte>, tok: Tokenizer, oom: (nat, nat) -> bool)
    requires forall i: nat :: !oom(0, i)
    ensures |AllDocs([Some(content)], 1, tok, oom)| == |FileDocs(content, 0, 1, tok, (_: nat) => false)|
  {
    AllDocsNext([Some(content)], 0, 1, tok, oom);
    SameOom(content, 0, tok, (offset: nat) => oom(0, offset), (_: nat) => false);
    assert [Some(content)][..1] == [Some(content)] && [Some(content)][..0] == [];
  }

  lemma {:induction false} SameOom(content: seq<byte>, offset: nat, tok: Tokenizer, oom: nat -> bool, oom': nat -> bool)
    requires forall i: nat :: oom(i) == oom'(i)
    ensures FileDocs(content, offset, 1, tok, oom) == FileDocs(content, offset, 1, tok, oom')
    decreases |content| - offset
  {
    if offset < |content| { SameOom(content, EndOf(content, offset, 1), tok, oom, oom'); }
  }

  /** All runs keep their buffer indices in int exactly when the batch size is at most 2^23, for every
      tokenizer that finds a token in some pair of letters; the program accepts any batch size up to
      the int maximum. */
  lemma IndicesFitExactly(batchSize: nat, tok: Tokenizer, x: byte, y: byte)
    requires batchSize > 0 && y != CLOSE_BRACE && tok([x, y, CLOSE_BRACE]) != []
    ensures (forall files, chunkSize, oom :: IndicesFit(files, chunkSize, batchSize, tok, oom))
            <==> batchSize <= MAX_BATCH_SIZE
  {
    if batchSize <= MAX_BATCH_SIZE {
      forall files, chunkSize, oom
        ensures IndicesFit(files, chunkSize, batchSize, tok, oom)
      {
        if chunkSize > 0 {
          AllDocsSized(files, chunkSize, tok, oom);
          LargestBound(AllDocs(files, chunkSize, tok, oom), batchSize);
        }
      }
    } else {
      var content := OverflowingRun(batchSize, tok, x, y);
    }
  }

  /** The chunk counter of this run is an int. */
  ghost predicate CountFits(files: seq<Option<seq<byte>>>, chunkSize: nat, tok: Tokenizer, oom: (nat, nat) -> bool) {
    chunkSize > 0 ==> |AllDocs(files, chunkSize, tok, oom)| <= INT_MAX
  }

  /** The chunk counter stays in int for every tokenizer and every allocation outcome exactly when
      the files have at most 2^31 - 1 chunks. */
  lemma CountFitsExactly(files: seq<Option<seq<byte>>>, chunkSize: nat)
    requires chunkSize > 0
    ensures (forall tok, oom :: CountFits(files, chunkSize, tok, oom)) <==> ChunkCount(files, chunkSize) <= INT_MAX
  {
    if ChunkCount(files, chunkSize) <= INT_MAX {
      forall tok, oom
        ensures CountFits(files, chunkSize, tok, oom)
      {
        AllDocsCount(files, chunkSize, tok, oom);
      }
    } else {
      var tok: Tokenizer := _ => ["token"];
      var oom: (nat, nat) -> bool := (_, _) => false;
      AllDocsCount(files, chunkSize, tok, oom);
      assert !CountFits(files, chunkSize, tok, oom);
    }
  }
}
