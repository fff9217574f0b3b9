/**
 * WoCoServer.cleanDocument: a one-pass scan that keeps lower-case letters and single
 * spaces found outside angle-bracket tags.
 *
 * The scan threads five variables: the output so far, the tag depth (the Java code
 * keeps a Stack that only ever holds '<', popped only when non-empty, so it is a
 * counter that never goes below 0), whether no tag character has been seen yet,
 * the text seen before the first tag character, and the last kept character. The
 * text before the first tag character reaches the output only when a '<' flushes it;
 * a '>' seen first ends the beginning without flushing, and the end of the input
 * never flushes it.
 */
module HtmlClean {
  import opened JavaText
  import WordCount

  datatype Scan = Scan(out: string, depth: nat, docBeginning: bool, beginning: string, lastAdded: char)

  const Start: Scan := Scan("", 0, true, "", ' ')

  /** One iteration of the loop of cleanDocument, on the lower-cased character. */
  function Step(st: Scan, ch: char): Scan {
    var c := LowerAscii(ch);
    if c == '<' then
      st.(out := if st.docBeginning then st.out + st.beginning else st.out,
          docBeginning := false,
          depth := st.depth + 1)
    else if c == '>' then
      st.(docBeginning := false, depth := if st.depth > 0 then st.depth - 1 else 0)
    else if IsLower(c) || (c == ' ' && st.lastAdded != ' ') then
      if st.docBeginning then st.(beginning := st.beginning + [c], lastAdded := c)
      else if st.depth == 0 then st.(out := st.out + [c], lastAdded := c)
      else st
    else st
  }

  /** The scan state after reading all of `s`. */
  function Run(s: string): Scan {
    if s == [] then Start else Step(Run(s[..|s| - 1]), s[|s| - 1])
  }

  /** What cleanDocument returns: the trimmed output of the scan. */
  function Clean(line: string): string {
    Trim(Run(line).out)
  }

  lemma RunSnoc(p: string, q: string)
    requires q != []
    ensures Run(p + q) == Step(Run(p + q[..|q| - 1]), q[|q| - 1])
  {
    assert (p + q)[..|p + q| - 1] == p + q[..|q| - 1];
  }

  /** The relations between the scan variables that every iteration keeps. */
  ghost predicate Consistent(st: Scan) {
    && WordText(st.beginning) && (st.beginning == [] || st.beginning[0] != ' ')
    && WordText(st.out)
    && (st.docBeginning ==> st.out == [] && st.depth == 0 && st.lastAdded == WordCount.LastOr(st.beginning, ' '))
    && (!st.docBeginning && st.out != [] ==> st.out[|st.out| - 1] == st.lastAdded)
  }

  lemma StepConsistent(st: Scan, ch: char)
    requires Consistent(st)
    ensures Consistent(Step(st, ch))
  {
  }

  lemma {:induction false} RunConsistent(s: string)
    ensures Consistent(Run(s))
    decreases |s|
  {
    if s != [] {
      RunConsistent(s[..|s| - 1]);
      StepConsistent(Run(s[..|s| - 1]), s[|s| - 1]);
    }
  }

  /**
   * The cleaned document holds only lower-case letters and single spaces, and neither
   * starts nor ends with a space.
   */
  lemma CleanIsWordText(line: string)
    ensures WordText(Clean(line))
    ensures Clean(line) == [] || (Clean(line)[0] != ' ' && Clean(line)[|Clean(line)| - 1] != ' ')
  {
    RunConsistent(line);
    TrimmedWordText(Run(line).out, Clean(line));
  }

  lemma TrimmedWordText(o: string, t: string)
    requires WordText(o) && t == Trim(o)
    ensures WordText(t) && (t == [] || (t[0] != ' ' && t[|t| - 1] != ' '))
  {
    TrimWordText(o);
  }

  /** cleanDocument, with the tag stack kept as its depth. */
  method CleanDocument(line: string) returns (r: string)
    ensures r == Clean(line)
    ensures WordText(r) && (r == [] || (r[0] != ' ' && r[|r| - 1] != ' '))
  {
    var asciiLine := "";
    var depth: nat := 0;
    var docBeginning := true;
    var beginning := "";
    var lastAdded := ' ';
    for i := 0 to |line|
      invariant Scan(asciiLine, depth, docBeginning, beginning, lastAdded) == Run(line[..i])
    {
      assert line[..i + 1][..i] == line[..i];
      var cc := LowerAscii(line[i]);
      if cc == '<' {
        if docBeginning {
          asciiLine := asciiLine + beginning;
          docBeginning := false;
        }
        depth := depth + 1;
      } else if cc == '>' {
        docBeginning := false;
        if depth > 0 {
          depth := depth - 1;
        }
      } else if IsLower(cc) || (cc == ' ' && lastAdded != ' ') {
        if docBeginning {
          beginning := beginning + [cc];
          lastAdded := cc;
        } else if depth == 0 {
          asciiLine := asciiLine + [cc];
          lastAdded := cc;
        }
      }
    }
    assert line[..|line|] == line;
    assert Run(line).out == asciiLine;
    r := Trim(asciiLine);
    assert r == Clean(line);
    CleanIsWordText(line);
  }

  // ------------------------------------------------------------ tags

  /**
   * Nothing read while a '<' is still open reaches the output: once the depth is
   * positive, the output stays as it is until some '>' is read.
   */
  lemma {:induction false} UnclosedTagSuppressesOutput(p: string, q: string)
    requires Run(p).depth > 0
    requires '>' !in q
    ensures Run(p + q).out == Run(p).out
    ensures Run(p + q).depth >= Run(p).depth
    decreases |q|
  {
    if q == [] {
      assert p + q == p;
    } else {
      var q' := q[..|q| - 1];
      assert '>' !in q' by {
        forall i | 0 <= i < |q'| ensures q'[i] != '>' { assert q'[i] == q[i]; }
      }
      UnclosedTagSuppressesOutput(p, q');
      RunSnoc(p, q);
      RunConsistent(p + q');
      assert q[|q| - 1] in q;
    }
  }

  /** The depth after `a + q` and `b + q` agree when it agrees after `a` and `b`. */
  lemma {:induction false} DepthFollowsTagCharacters(a: string, b: string, q: string)
    requires Run(a).depth == Run(b).depth
    ensures Run(a + q).depth == Run(b + q).depth
    decreases |q|
  {
    if q == [] {
      assert a + q == a && b + q == b;
    } else {
      DepthFollowsTagCharacters(a, b, q[..|q| - 1]);
      RunSnoc(a, q);
      RunSnoc(b, q);
    }
  }

  /**
   * A '>' with no open '<' leaves the depth at 0 and so changes nothing about how
   * the rest of the document nests.
   */
  lemma StrayCloseIgnored(p: string, q: string)
    requires Run(p).depth == 0
    ensures Run(p + ['>']).depth == 0
    ensures Run(p + ['>'] + q).depth == Run(p + q).depth
  {
    RunSnoc(p, ['>']);
    assert p + ['>'] == p + ['>'];
    DepthFollowsTagCharacters(p + ['>'], p, q);
  }

  // ------------------------------------------------ text before the first tag

  /**
   * Text without tag characters never leaves the prefix buffer, which then holds
   * exactly what the word-count filter would make of it; the output stays empty.
   */
  lemma {:induction false} TagFreeTextStaysInPrefix(s: string)
    requires forall i :: 0 <= i < |s| ==> s[i] != '<' && s[i] != '>'
    ensures Run(s) == Scan("", 0, true, WordCount.Filter(s), WordCount.LastOr(WordCount.Filter(s), ' '))
    decreases |s|
  {
    if s != [] {
      var p := s[..|s| - 1];
      TagFreeTextStaysInPrefix(p);
      var c := LowerAscii(s[|s| - 1]);
      var f := WordCount.Filter(p);
      assert Run(p) == Scan("", 0, true, f, WordCount.LastOr(f, ' '));
      assert c != '<' && c != '>';
      if IsLower(c) || (c == ' ' && WordCount.LastOr(f, ' ') != ' ') {
        assert WordCount.Filter(s) == f + [c];
        assert Run(s) == Scan("", 0, true, f + [c], c);
      } else {
        assert WordCount.Filter(s) == f;
        assert Run(s) == Run(p);
      }
    }
  }

  /** A document without tag characters cleans to the empty text. */
  lemma TagFreeTextCleansToEmpty(s: string)
    requires '<' !in s && '>' !in s
    ensures Clean(s) == ""
  {
    TagFreeTextStaysInPrefix(s);
  }

  /** The scan output only grows. */
  lemma {:induction false} OutputGrows(p: string, q: string)
    ensures Run(p).out <= Run(p + q).out
    decreases |q|
  {
    if q == [] {
      assert p + q == p;
    } else {
      OutputGrows(p, q[..|q| - 1]);
      RunSnoc(p, q);
    }
  }

  /** A '<' read before any other tag character flushes the filtered prefix to the output. */
  lemma FlushOnOpen(t: string)
    requires forall i :: 0 <= i < |t| ==> t[i] != '<' && t[i] != '>'
    ensures Run(t + ['<']) == Scan(WordCount.Filter(t), 1, false, WordCount.Filter(t), WordCount.LastOr(WordCount.Filter(t), ' '))
  {
    TagFreeTextStaysInPrefix(t);
    RunSnoc(t, ['<']);
    assert t + ['<'][..0] == t;
  }

  /** Trimming keeps a prefix that does not start with a trimmable character. */
  lemma TrimKeepsPrefix(f: string, x: string)
    requires f <= x && (f == [] || !IsTrimmable(f[0]))
    ensures Trim(f) <= Trim(x)
  {
    if f != [] {
      assert x[0] == f[0];
      assert TrimLeft(x) == x && TrimLeft(f) == f;
      var n := |TrimRight(f)|;
      var m := |TrimRight(x)|;
      if n > 0 {
        assert x[n - 1] == f[n - 1];
      }
      assert n <= m;
      assert TrimRight(f) == x[..n] == TrimRight(x)[..n];
    }
  }

  /**
   * When a '<' is the first tag character, the text before it is flushed to the
   * output, filtered as the word counter filters, and stays at the head of the
   * cleaned document.
   */
  lemma PrefixFlushedByOpenTag(t: string, u: string)
    requires '<' !in t && '>' !in t
    ensures Run(t + ['<']).out == WordCount.Filter(t)
    ensures Trim(WordCount.Filter(t)) <= Clean(t + ['<'] + u)
  {
    assert forall i :: 0 <= i < |t| ==> t[i] != '<' && t[i] != '>' by {
      forall i | 0 <= i < |t| ensures t[i] != '<' && t[i] != '>' { assert t[i] in t; }
    }
    FlushOnOpen(t);
    OutputGrows(t + ['<'], u);
    TrimKeepsPrefix(WordCount.Filter(t), Run(t + ['<'] + u).out);
  }

  /**
   * The two scans agree up to a leading space of the first one's output (or, while
   * both outputs are empty, the first may still remember a dropped letter).
   */
  ghost predicate AgreeAfterTrim(a: Scan, b: Scan) {
    && a.depth == b.depth && !a.docBeginning && !b.docBeginning
    && ((a.out == b.out && a.lastAdded == b.lastAdded)
        || (a.out == [' '] + b.out && a.lastAdded == b.lastAdded)
        || (a.out == [] && b.out == [] && b.lastAdded == ' '))
  }

  lemma {:induction false} RunAgreeAfterTrim(pa: string, pb: string, q: string)
    requires AgreeAfterTrim(Run(pa), Run(pb))
    ensures AgreeAfterTrim(Run(pa + q), Run(pb + q))
    decreases |q|
  {
    if q == [] {
      assert pa + q == pa && pb + q == pb;
    } else {
      RunAgreeAfterTrim(pa, pb, q[..|q| - 1]);
      RunSnoc(pa, q);
      RunSnoc(pb, q);
      StepAgreeAfterTrim(Run(pa + q[..|q| - 1]), Run(pb + q[..|q| - 1]), q[|q| - 1]);
    }
  }

  lemma StepAgreeAfterTrim(a: Scan, b: Scan, ch: char)
    requires AgreeAfterTrim(a, b)
    ensures AgreeAfterTrim(Step(a, ch), Step(b, ch))
  {
  }

  /**
   * When a '>' is the first tag character, the text before it is dropped: the cleaned
   * document is what it would be without that text.
   */
  lemma PrefixDroppedByCloseFirst(t: string, u: string)
    requires '<' !in t && '>' !in t
    ensures Clean(t + ['>'] + u) == Clean(['>'] + u)
  {
    assert forall i :: 0 <= i < |t| ==> t[i] != '<' && t[i] != '>' by {
      forall i | 0 <= i < |t| ensures t[i] != '<' && t[i] != '>' { assert t[i] in t; }
    }
    CloseFirstAgrees(t);
    RunAgreeAfterTrim(t + ['>'], ['>'], u);
    var a := Run(t + ['>'] + u).out;
    var b := Run(['>'] + u).out;
    if a != b {
      TrimLeadingSpace(b);
    }
  }

  lemma CloseFirstAgrees(t: string)
    requires forall i :: 0 <= i < |t| ==> t[i] != '<' && t[i] != '>'
    ensures AgreeAfterTrim(Run(t + ['>']), Run(['>']))
  {
    TagFreeTextStaysInPrefix(t);
    RunSnoc(t, ['>']);
    RunSnoc([], ['>']);
    assert [] + ['>'] == ['>'];
  }
}
