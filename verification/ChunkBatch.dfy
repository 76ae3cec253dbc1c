/** Splitting files into chunks, and the documents their tokens make. */
module ChunkBatch {
  import opened Options

  type byte = x: int | 0 <= x < 256
  type Document = seq<string>

  const CLOSE_BRACE: byte := 125
  const MAX_TOKENS_PER_CHUNK: nat := 256
  const MAX_FILE_SIZE: nat := 64 * 1024 * 1024

  function Flatten<T>(parts: seq<seq<T>>): seq<T> {
    if parts == [] then [] else Flatten(parts[..|parts| - 1]) + parts[|parts| - 1]
  }

  lemma Associates<T>(a: seq<T>, b: seq<T>, c: seq<T>)
    ensures a + b + c == a + (b + c)
  {
  }

  lemma {:induction false} FlattenConcat<T>(a: seq<seq<T>>, b: seq<seq<T>>)
    ensures Flatten(a + b) == Flatten(a) + Flatten(b)
    decreases |b|
  {
    if b == [] {
      assert a + b == a;
    } else {
      var last := b[|b| - 1];
      assert (a + b)[..|a + b| - 1] == a + b[..|b| - 1];
      FlattenConcat(a, b[..|b| - 1]);
      Associates(Flatten(a), Flatten(b[..|b| - 1]), last);
    }
  }

  // ---- chunks ----

  /** `end` is where the chunk that starts at `offset` ends: past the first closing brace at or
      after offset + chunkSize, or at the end of the file when there is none. */
  ghost predicate EndsAt(content: seq<byte>, offset: nat, chunkSize: nat, end: nat) {
    && offset < end <= |content|
    && (forall i :: offset + chunkSize <= i < end - 1 ==> content[i] != '}' as int)
    && if end < |content| then offset + chunkSize <= end - 1 && content[end - 1] == '}' as int
       else offset + chunkSize < |content| ==> offset + chunkSize <= end - 1
  }

  lemma EndUnique(content: seq<byte>, offset: nat, chunkSize: nat, e: nat, e': nat)
    requires EndsAt(content, offset, chunkSize, e) && EndsAt(content, offset, chunkSize, e')
    ensures e == e'
  {
    assert e < |content| ==> content[e - 1] == CLOSE_BRACE;
    assert e' < |content| ==> content[e' - 1] == CLOSE_BRACE;
  }

  /** The scan for the next closing brace. */
  method FindEnd(content: seq<byte>, offset: nat, chunkSize: nat) returns (end: nat)
    requires offset < |content| && chunkSize > 0
    ensures EndsAt(content, offset, chunkSize, end)
  {
    end := offset + chunkSize;
    if end < |content| {
      var found: nat := 0;
      for i := end to |content|
        invariant found == 0 && forall k :: end <= k < i ==> content[k] != CLOSE_BRACE
      {
        if content[i] == CLOSE_BRACE {
          found := i + 1;
          break;
        }
      }
      end := if found != 0 then found else |content|;
    } else {
      end := |content|;
    }
  }

  ghost function EndOf(content: seq<byte>, offset: nat, chunkSize: nat): (end: nat)
    requires offset < |content| && chunkSize > 0
    ensures EndsAt(content, offset, chunkSize, end)
  {
    EndExists(content, offset, chunkSize);
    var end: nat :| EndsAt(content, offset, chunkSize, end);
    end
  }

  lemma EndExists(content: seq<byte>, offset: nat, chunkSize: nat)
    requires offset < |content| && chunkSize > 0
    ensures exists end: nat :: EndsAt(content, offset, chunkSize, end)
  {
    var i := offset + chunkSize;
    while i < |content| && content[i] != CLOSE_BRACE
      invariant offset + chunkSize <= i
      invariant forall k :: offset + chunkSize <= k < i && k < |content| ==> content[k] != CLOSE_BRACE
    {
      i := i + 1;
    }
    assert EndsAt(content, offset, chunkSize, if i < |content| then i + 1 else |content|);
  }

  /** The chunks of a file from `offset` on, each ending as `EndsAt` says. */
  ghost function Chunks(content: seq<byte>, offset: nat, chunkSize: nat): seq<seq<byte>>
    requires chunkSize > 0
    decreases |content| - offset
  {
    if offset >= |content| then []
    else
      var end := EndOf(content, offset, chunkSize);
      [content[offset..end]] + Chunks(content, end, chunkSize)
  }

  /** The chunks of a file are non-empty and concatenate back to it. */
  lemma {:induction false} ChunksConcatenate(content: seq<byte>, offset: nat, chunkSize: nat)
    requires offset <= |content| && chunkSize > 0
    ensures Flatten(Chunks(content, offset, chunkSize)) == content[offset..]
    ensures forall k :: 0 <= k < |Chunks(content, offset, chunkSize)| ==> Chunks(content, offset, chunkSize)[k] != []
    decreases |content| - offset
  {
    if offset < |content| {
      var end := EndOf(content, offset, chunkSize);
      ChunksConcatenate(content, end, chunkSize);
      FlattenConcat([content[offset..end]], Chunks(content, end, chunkSize));
      FlattenOne(content[offset..end]);
      assert content[offset..] == content[offset..end] + content[end..];
    }
  }

  lemma FlattenOne<T>(p: seq<T>)
    ensures Flatten([p]) == p
  {
    assert [p][..0] == [];
    assert Flatten([p][..0]) + p == p;
  }

  // ---- documents ----

  /** The tokenizer writes at most MAX_TOKENS_PER_CHUNK tokens; which ones is its own affair. */
  type Tokenizer = seq<byte> -> Document

  function Tokenize(tok: Tokenizer, chunk: seq<byte>): (r: Document)
    ensures r <= tok(chunk) && |r| == if |tok(chunk)| <= 256 then |tok(chunk)| else 256
  {
    var d := tok(chunk);
    if |d| <= MAX_TOKENS_PER_CHUNK then d else d[..MAX_TOKENS_PER_CHUNK]
  }

  /** The documents of one file from `offset` on: the token lists of its chunks in order, without
      those that have no token and those whose copy could not be allocated. */
  ghost function FileDocs(content: seq<byte>, offset: nat, chunkSize: nat, tok: Tokenizer, oom: nat -> bool)
    : seq<Document>
    requires chunkSize > 0
    decreases |content| - offset
  {
    if offset >= |content| then []
    else
      var end := EndOf(content, offset, chunkSize);
      var doc := Tokenize(tok, content[offset..end]);
      (if oom(offset) || doc == [] then [] else [doc]) + FileDocs(content, end, chunkSize, tok, oom)
  }

  /** The tokens of some chunks, at most the first 256 of each, without the chunks that have none. */
  ghost function TokenLists(chunks: seq<seq<byte>>, tok: Tokenizer): seq<Document> {
    if chunks == [] then []
    else
      var all := tok(chunks[0]);
      (if all == [] then [] else if |all| <= 256 then [all] else [all[..256]]) + TokenLists(chunks[1..], tok)
  }

  /** The chunks whose copy could be allocated. */
  ghost function Copied(content: seq<byte>, offset: nat, chunkSize: nat, oom: nat -> bool): seq<seq<byte>>
    requires chunkSize > 0
    decreases |content| - offset
  {
    if offset >= |content| then []
    else
      var end := EndOf(content, offset, chunkSize);
      (if oom(offset) then [] else [content[offset..end]]) + Copied(content, end, chunkSize, oom)
  }

  /** Without a failed allocation these are all chunks. */
  lemma {:induction false} AllCopied(content: seq<byte>, offset: nat, chunkSize: nat, oom: nat -> bool)
    requires chunkSize > 0 && forall i :: !oom(i)
    ensures Copied(content, offset, chunkSize, oom) == Chunks(content, offset, chunkSize)
    decreases |content| - offset
  {
    if offset < |content| { AllCopied(content, EndOf(content, offset, chunkSize), chunkSize, oom); }
  }

  lemma TokenListsNext(chunk: seq<byte>, rest: seq<seq<byte>>, tok: Tokenizer)
    ensures var doc := Tokenize(tok, chunk);
            TokenLists([chunk] + rest, tok) == (if doc == [] then [] else [doc]) + TokenLists(rest, tok)
  {
    assert Tokenize(tok, chunk) == if |tok(chunk)| <= 256 then tok(chunk) else tok(chunk)[..256];
    assert ([chunk] + rest)[1..] == rest;
  }

  /** A file's documents are the token lists of the chunks that could be copied, and these are all
      its chunks when no allocation fails. */
  lemma {:induction false} DocsOfChunks(content: seq<byte>, offset: nat, chunkSize: nat, tok: Tokenizer,
                                        oom: nat -> bool)
    requires chunkSize > 0
    ensures FileDocs(content, offset, chunkSize, tok, oom) == TokenLists(Copied(content, offset, chunkSize, oom), tok)
    ensures (forall i :: !oom(i)) ==> Copied(content, offset, chunkSize, oom) == Chunks(content, offset, chunkSize)
    decreases |content| - offset
  {
    hide Tokenize, TokenLists;
    if offset < |content| {
      var end := EndOf(content, offset, chunkSize);
      DocsOfChunks(content, end, chunkSize, tok, oom);
      if oom(offset) {
        assert Copied(content, offset, chunkSize, oom) == Copied(content, end, chunkSize, oom);
      } else {
        TokenListsNext(content[offset..end], Copied(content, end, chunkSize, oom), tok);
      }
    } else {
      NoTokenLists(tok);
    }
    if forall i :: !oom(i) { AllCopied(content, offset, chunkSize, oom); }
  }

  lemma NoTokenLists(tok: Tokenizer)
    ensures TokenLists([], tok) == []
  {
  }

  /** The documents of all files that could be read, in order. */
  ghost function AllDocs(files: seq<Option<seq<byte>>>, chunkSize: nat, tok: Tokenizer, oom: (nat, nat) -> bool)
    : seq<Document>
    requires chunkSize > 0
  {
    if files == [] then []
    else
      var f := |files| - 1;
      AllDocs(files[..f], chunkSize, tok, oom)
      + (if files[f].None? then [] else FileDocs(files[f].value, 0, chunkSize, tok, (offset: nat) => oom(f, offset)))
  }

  /** One iteration of the chunk loop, on the documents still to come. */
  lemma FileDocsStep(content: seq<byte>, offset: nat, chunkSize: nat, tok: Tokenizer, oom: nat -> bool, end: nat,
                     done: seq<Document>)
    requires chunkSize > 0 && offset < |content| && EndsAt(content, offset, chunkSize, end)
    ensures var doc, rest := Tokenize(tok, content[offset..end]), FileDocs(content, end, chunkSize, tok, oom);
            var all := FileDocs(content, offset, chunkSize, tok, oom);
            if oom(offset) || doc == [] then all == rest
            else |all| == 1 + |rest| && done + all == done + [doc] + rest
  {
    EndUnique(content, offset, chunkSize, end, EndOf(content, offset, chunkSize));
  }

  /** Every document has between 1 and MAX_TOKENS_PER_CHUNK tokens. */
  ghost predicate Sized(docs: seq<Document>) {
    forall k :: 0 <= k < |docs| ==> 0 < |docs[k]| <= MAX_TOKENS_PER_CHUNK
  }

  lemma {:induction false} FileDocsSized(content: seq<byte>, offset: nat, chunkSize: nat, tok: Tokenizer,
                                         oom: nat -> bool)
    requires chunkSize > 0
    ensures Sized(FileDocs(content, offset, chunkSize, tok, oom))
    decreases |content| - offset
  {
    if offset < |content| {
      FileDocsSized(content, EndOf(content, offset, chunkSize), chunkSize, tok, oom);
    }
  }

  lemma {:induction false} AllDocsSized(files: seq<Option<seq<byte>>>, chunkSize: nat, tok: Tokenizer,
                                        oom: (nat, nat) -> bool)
    requires chunkSize > 0
    ensures Sized(AllDocs(files, chunkSize, tok, oom))
  {
    if files != [] {
      var f := |files| - 1;
      AllDocsSized(files[..f], chunkSize, tok, oom);
      if files[f].Some? {
        FileDocsSized(files[f].value, 0, chunkSize, tok, (offset: nat) => oom(f, offset));
      }
    }
  }

  // ---- how many documents there can be ----

  /** The number of chunks of all readable files. */
  ghost function ChunkCount(files: seq<Option<seq<byte>>>, chunkSize: nat): nat
    requires chunkSize > 0
  {
    if files == [] then 0
    else
      var f := |files| - 1;
      ChunkCount(files[..f], chunkSize) + (if files[f].None? then 0 else |Chunks(files[f].value, 0, chunkSize)|)
  }

  lemma {:induction false} FileDocsCount(content: seq<byte>, offset: nat, chunkSize: nat, tok: Tokenizer,
                                         oom: nat -> bool)
    requires chunkSize > 0
    ensures |FileDocs(content, offset, chunkSize, tok, oom)| <= |Chunks(content, offset, chunkSize)|
    ensures (forall i :: !oom(i)) && (forall c :: tok(c) != []) ==>
              |FileDocs(content, offset, chunkSize, tok, oom)| == |Chunks(content, offset, chunkSize)|
    decreases |content| - offset
  {
    if offset < |content| {
      FileDocsCount(content, EndOf(content, offset, chunkSize), chunkSize, tok, oom);
    }
  }

  /** There are at most as many documents as chunks, and as many when every chunk has a token and
      memory. */
  lemma {:induction false} AllDocsCount(files: seq<Option<seq<byte>>>, chunkSize: nat, tok: Tokenizer,
                                        oom: (nat, nat) -> bool)
    requires chunkSize > 0
    ensures |AllDocs(files, chunkSize, tok, oom)| <= ChunkCount(files, chunkSize)
    ensures (forall f, i :: !oom(f, i)) && (forall c :: tok(c) != []) ==>
              |AllDocs(files, chunkSize, tok, oom)| == ChunkCount(files, chunkSize)
  {
    if files != [] {
      var f := |files| - 1;
      AllDocsCount(files[..f], chunkSize, tok, oom);
      if files[f].Some? {
        FileDocsCount(files[f].value, 0, chunkSize, tok, (offset: nat) => oom(f, offset));
      }
    }
  }

  // ---- a file with many chunks ----

  /** `n` times the bytes x, y and a closing brace. */
  function Triples(x: byte, y: byte, n: nat): (r: seq<byte>)
    ensures |r| == 3 * n
    ensures forall i :: 0 <= i < n ==> r[3 * i..3 * i + 3] == [x, y, CLOSE_BRACE]
  {
    if n == 0 then []
    else
      var r := Triples(x, y, n - 1) + [x, y, CLOSE_BRACE];
      TripleStep(x, y, Triples(x, y, n - 1), n - 1);
      r
  }

  lemma TripleStep(x: byte, y: byte, r: seq<byte>, n: nat)
    requires |r| == 3 * n && forall i :: 0 <= i < n ==> r[3 * i..3 * i + 3] == [x, y, CLOSE_BRACE]
    ensures forall i :: 0 <= i < n + 1 ==> (r + [x, y, CLOSE_BRACE])[3 * i..3 * i + 3] == [x, y, CLOSE_BRACE]
  {
    var t := r + [x, y, CLOSE_BRACE];
    forall i | 0 <= i < n + 1
      ensures t[3 * i..3 * i + 3] == [x, y, CLOSE_BRACE]
    {
      if i < n { assert t[3 * i..3 * i + 3] == r[3 * i..3 * i + 3]; }
    }
  }

  lemma TripleEnds(content: seq<byte>, offset: nat, x: byte, y: byte)
    requires offset + 3 <= |content| && content[offset..offset + 3] == [x, y, CLOSE_BRACE] && y != CLOSE_BRACE
    ensures EndOf(content, offset, 1) == offset + 3
  {
    var chunk := content[offset..offset + 3];
    assert content[offset + 1] == chunk[1] && content[offset + 2] == chunk[2];
    EndUnique(content, offset, 1, offset + 3, EndOf(content, offset, 1));
  }

  /** With chunk size 1 every triple is a chunk, hence a document when the tokenizer finds a token
      in it. */
  lemma {:induction false} TriplesDocs(x: byte, y: byte, n: nat, k: nat, tok: Tokenizer)
    requires k <= n && y != CLOSE_BRACE && tok([x, y, CLOSE_BRACE]) != []
    ensures |FileDocs(Triples(x, y, n), 3 * k, 1, tok, (_: nat) => false)| == n - k
    decreases n - k
  {
    hide Triples, EndsAt;
    var content, offset := Triples(x, y, n), 3 * k;
    if k < n {
      TripleEnds(content, offset, x, y);
      TriplesDocs(x, y, n, k + 1, tok);
    }
  }
}
