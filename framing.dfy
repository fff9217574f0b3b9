/**
 * How receiveData cuts documents out of a client's byte stream. Each chunk is appended
 * to the client's buffer; when the chunk contains the separator, the text before the
 * first separator in the whole buffer is the document, and whatever follows that
 * separator stays in the buffer (it is empty unless several documents arrived at once).
 */
module Framing {
  import opened JavaText
  import opened Wire

  /** The outcome of appending one chunk: whether a document was completed, which one, and the new buffer. */
  datatype Frame = Frame(complete: bool, doc: string, buffer: string)

  /**
   * The framing step of receiveData on the client's buffer `buf` and a new chunk.
   * The test for a complete document looks at the chunk alone, while the document is
   * cut at the first separator of the whole buffer.
   */
  function Extract(buf: string, chunk: string): (f: Frame)
    ensures f.complete <==> SEPARATOR in chunk
    ensures !f.complete ==> f.buffer == buf + chunk
    ensures f.complete ==> buf + chunk == f.doc + [SEPARATOR] + f.buffer && SEPARATOR !in f.doc
  {
    var data := buf + chunk;
    if SEPARATOR !in chunk then Frame(false, "", data)
    else
      assert chunk[IndexOf(chunk, SEPARATOR)] in data;
      var i := IndexOf(data, SEPARATOR);
      assert data == data[..i] + [SEPARATOR] + data[i + 1..];
      Frame(true, data[..i], data[i + 1..])
  }

  /** The first separator of a separator-free text followed by a separator is the one right after it. */
  lemma {:induction false} IndexAfterPrefix(d: string, r: string)
    requires SEPARATOR !in d
    ensures IndexOf(d + [SEPARATOR] + r, SEPARATOR) == |d|
    decreases |d|
  {
    if d != [] {
      assert (d + [SEPARATOR] + r)[1..] == d[1..] + [SEPARATOR] + r;
      assert d[0] in d;
      IndexAfterPrefix(d[1..], r);
    }
  }

  /** A text splits in at most one way into separator-free text, the separator and a rest. */
  lemma FirstSeparatorUnique(d1: string, r1: string, d2: string, r2: string)
    requires SEPARATOR !in d1 && SEPARATOR !in d2
    requires d1 + [SEPARATOR] + r1 == d2 + [SEPARATOR] + r2
    ensures d1 == d2 && r1 == r2
  {
    var s := d1 + [SEPARATOR] + r1;
    IndexAfterPrefix(d1, r1);
    IndexAfterPrefix(d2, r2);
    assert d1 == s[..|d1|] == d2;
    assert r1 == s[|d1| + 1..] == r2;
  }

  /** Concatenation of the chunks. */
  function Concat(chunks: seq<string>): string {
    if chunks == [] then "" else chunks[0] + Concat(chunks[1..])
  }

  /** The documents completed by receiving `chunks` one after another, and the buffer left at the end. */
  function Feed(buf: string, chunks: seq<string>): (seq<string>, string)
    decreases |chunks|
  {
    if chunks == [] then ([], buf)
    else
      var f := Extract(buf, chunks[0]);
      var (docs, rest) := Feed(f.buffer, chunks[1..]);
      (if f.complete then [f.doc] + docs else docs, rest)
  }

  lemma {:induction false} FeedEmptyChunks(chunks: seq<string>)
    requires Concat(chunks) == ""
    ensures Feed("", chunks) == ([], "")
    decreases |chunks|
  {
    if chunks != [] {
      assert chunks[0] == "";
      FeedEmptyChunks(chunks[1..]);
    }
  }

  /** A chunk that holds the separator of `d + "$"` is all of it, and nothing follows. */
  lemma ChunkWithSeparator(d: string, c: string, tail: string)
    requires SEPARATOR !in d && SEPARATOR in c
    requires c + tail == d + [SEPARATOR]
    ensures c == d + [SEPARATOR] && tail == ""
  {
    var j := IndexOf(c, SEPARATOR);
    IndexAfterPrefix(d, "");
    assert d + [SEPARATOR] == d + [SEPARATOR] + "";
    assert (c + tail)[j] == c[j];
    assert IndexOf(c + tail, SEPARATOR) <= j;
    assert |c| >= |d| + 1;
    assert |c| == |d| + 1;
    assert c == (c + tail)[..|c|];
  }

  /** A chunk without the separator is a prefix of the document. */
  lemma ChunkWithoutSeparator(d: string, c: string, tail: string)
    requires SEPARATOR !in d && SEPARATOR !in c
    requires c + tail == d + [SEPARATOR]
    ensures |c| <= |d| && d == c + d[|c|..] && tail == d[|c|..] + [SEPARATOR]
  {
    assert c == (c + tail)[..|c|] == (d + [SEPARATOR])[..|c|];
    assert SEPARATOR in d + [SEPARATOR];
    assert |c| <= |d|;
    assert d == c + d[|c|..];
    assert c + tail == c + (d[|c|..] + [SEPARATOR]);
  }

  lemma NoSeparatorInConcat(a: string, b: string)
    requires SEPARATOR !in a && SEPARATOR !in b
    ensures SEPARATOR !in a + b
  {
    forall i | 0 <= i < |a + b| ensures (a + b)[i] != SEPARATOR {
      if i < |a| { assert (a + b)[i] == a[i]; } else { assert (a + b)[i] == b[i - |a|]; }
    }
  }

  /**
   * Fragmentation does not matter: however a separator-free document followed by one
   * separator is cut into chunks, receiving them after a separator-free buffer
   * completes exactly one document, the buffer followed by the document, and leaves
   * the buffer empty.
   */
  lemma {:induction false} FragmentationIndependent(buf: string, d: string, chunks: seq<string>)
    requires SEPARATOR !in buf && SEPARATOR !in d
    requires Concat(chunks) == d + [SEPARATOR]
    ensures Feed(buf, chunks) == ([buf + d], "")
    decreases |chunks|
  {
    var c := chunks[0];
    var tail := Concat(chunks[1..]);
    if SEPARATOR in c {
      ChunkWithSeparator(d, c, tail);
      var f := Extract(buf, c);
      assert buf + c == (buf + d) + [SEPARATOR] + "";
      NoSeparatorInConcat(buf, d);
      FirstSeparatorUnique(f.doc, f.buffer, buf + d, "");
      FeedEmptyChunks(chunks[1..]);
      assert [f.doc] + [] == [buf + d];
    } else {
      ChunkWithoutSeparator(d, c, tail);
      var d' := d[|c|..];
      assert SEPARATOR !in d' by {
        forall i | 0 <= i < |d'| ensures d'[i] != SEPARATOR { assert d'[i] == d[|c| + i]; }
      }
      NoSeparatorInConcat(buf, c);
      FragmentationIndependent(buf + c, d', chunks[1..]);
      assert buf + c + d' == buf + d;
    }
  }
}
