/**
 * WoCoServer.doWordCount: the ASCII filter used when cleaning is off, the split on
 * spaces, and the count update of one client's word table.
 */
module WordCount {
  import opened JavaText

  /** The last character of `s`, or `d` when `s` is empty. */
  function LastOr(s: string, d: char): char {
    if s == [] then d else s[|s| - 1]
  }

  /**
   * The character filter of doWordCount: fold to lower case, keep a-z, and keep a
   * space only when the last kept character is not a space (a space is what the
   * filter starts from, so a leading space is never kept).
   */
  function Filter(s: string): (r: string)
    ensures WordText(r)
    ensures r == [] || r[0] != ' '
    decreases |s|
  {
    if s == [] then ""
    else
      var kept := Filter(s[..|s| - 1]);
      var c := LowerAscii(s[|s| - 1]);
      if IsLower(c) || (c == ' ' && LastOr(kept, ' ') != ' ') then kept + [c] else kept
  }

  /** The letters a-z of `s`, in order. */
  function Letters(s: string): string {
    if s == [] then "" else Letters(s[..|s| - 1]) + (if IsLower(s[|s| - 1]) then [s[|s| - 1]] else "")
  }

  /** The letters of `s` after ASCII case folding, in order: every A-Z becomes a-z, the rest is dropped. */
  function FoldedLetters(s: string): (r: string)
    ensures forall i :: 0 <= i < |r| ==> IsLower(r[i])
  {
    if s == [] then ""
    else
      var c := LowerAscii(s[|s| - 1]);
      FoldedLetters(s[..|s| - 1]) + (if IsLower(c) then [c] else "")
  }

  lemma {:induction false} LettersAppend(a: string, b: string)
    ensures Letters(a + b) == Letters(a) + Letters(b)
    decreases |b|
  {
    if b != [] {
      var b' := b[..|b| - 1];
      assert (a + b)[..|a + b| - 1] == a + b';
      LettersAppend(a, b');
    } else {
      assert a + b == a;
    }
  }

  /** The filter loses no letter and invents none: its letters are the input's letters, case-folded. */
  lemma {:induction false} FilterKeepsLetters(s: string)
    ensures Letters(Filter(s)) == FoldedLetters(s)
    decreases |s|
  {
    if s != [] {
      var p := s[..|s| - 1];
      FilterKeepsLetters(p);
      var c := LowerAscii(s[|s| - 1]);
      if IsLower(c) || (c == ' ' && LastOr(Filter(p), ' ') != ' ') {
        LettersAppend(Filter(p), [c]);
        assert Letters([c]) == Letters([]) + (if IsLower(c) then [c] else "");
      }
    }
  }

  /** Concatenation of a sequence of strings. */
  function Flatten(parts: seq<string>): string {
    if parts == [] then "" else parts[0] + Flatten(parts[1..])
  }

  lemma {:induction false} FlattenAppend(a: seq<string>, b: seq<string>)
    ensures Flatten(a + b) == Flatten(a) + Flatten(b)
    decreases |a|
  {
    if a != [] {
      assert (a + b)[1..] == a[1..] + b;
      FlattenAppend(a[1..], b);
    } else {
      assert a + b == b;
    }
  }

  lemma {:induction false} FlattenDropTrailingEmpty(parts: seq<string>)
    ensures Flatten(DropTrailingEmpty(parts)) == Flatten(parts)
    decreases |parts|
  {
    if parts != [] && parts[|parts| - 1] == "" {
      var init := parts[..|parts| - 1];
      FlattenDropTrailingEmpty(init);
      assert parts == init + [""];
      FlattenAppend(init, [""]);
    }
  }

  /** Splitting text of letters and single spaces on spaces keeps exactly its letters. */
  lemma {:induction false} FlattenPieces(s: string)
    requires WordText(s)
    ensures Flatten(Pieces(s, ' ')) == Letters(s)
    decreases |s|
  {
    if s != [] {
      var t := s[1..];
      WordTextSlice(s, 1, |s|);
      FlattenPieces(t);
      LettersCons(s);
      PiecesCons(s, ' ');
    }
  }

  lemma LettersCons(s: string)
    requires s != []
    ensures Letters(s) == (if IsLower(s[0]) then [s[0]] else "") + Letters(s[1..])
  {
    assert s == [s[0]] + s[1..];
    LettersAppend([s[0]], s[1..]);
    assert Letters([s[0]]) == Letters([]) + (if IsLower(s[0]) then [s[0]] else "");
  }

  /** Flattening the pieces of a non-empty text: its first character, unless a separator, then the rest's. */
  lemma PiecesCons(s: string, sep: char)
    requires s != []
    ensures Flatten(Pieces(s, sep)) == (if s[0] == sep then "" else [s[0]]) + Flatten(Pieces(s[1..], sep))
  {
    var rest := Pieces(s[1..], sep);
    var p := Pieces(s, sep);
    assert Flatten(rest) == rest[0] + Flatten(rest[1..]);
    if s[0] == sep {
      assert p[1..] == rest;
    } else {
      assert p[1..] == rest[1..];
    }
  }

  /**
   * In text of letters and single spaces only the first and the last piece can be
   * empty, and the first one only when the text starts with a space.
   */
  lemma {:induction false} PiecesOfWordText(s: string)
    requires WordText(s)
    ensures forall i :: 0 < i < |Pieces(s, ' ')| - 1 ==> Pieces(s, ' ')[i] != ""
    ensures s != [] && s[0] != ' ' ==> Pieces(s, ' ')[0] != ""
    ensures forall i, c :: 0 <= i < |Pieces(s, ' ')| && c in Pieces(s, ' ')[i] ==> c in s
    decreases |s|
  {
    if s != [] {
      var t := s[1..];
      WordTextSlice(s, 1, |s|);
      PiecesOfWordText(t);
      var rest := Pieces(t, ' ');
      var p := Pieces(s, ' ');
      forall c | c in t ensures c in s {
        var j :| 0 <= j < |t| && t[j] == c;
        assert s[j + 1] == c;
      }
      if s[0] == ' ' {
        assert t != [] ==> t[0] != ' ';
        assert p == [""] + rest;
        forall i | 0 < i < |p| - 1 ensures p[i] != "" {
          assert p[i] == rest[i - 1];
        }
        forall i, c | 0 <= i < |p| && c in p[i] ensures c in s {
          assert p[i] == if i == 0 then "" else rest[i - 1];
        }
      } else {
        assert p == [[s[0]] + rest[0]] + rest[1..];
        forall i | 0 < i < |p| - 1 ensures p[i] != "" {
          assert p[i] == rest[i];
          assert rest[i] != "";
        }
        forall i, c | 0 <= i < |p| && c in p[i] ensures c in s {
          if i == 0 {
            assert c == s[0] || c in rest[0];
          } else {
            assert p[i] == rest[i];
          }
        }
      }
    }
  }

  /** A non-empty word of lower-case letters a-z. */
  ghost predicate IsWord(w: string) {
    w != [] && forall i :: 0 <= i < |w| ==> IsLower(w[i])
  }

  /**
   * The words of text of letters and single spaces that does not start with a space
   * (what the filter and the cleaner produce): an empty text gives the single empty
   * word; otherwise every word is a non-empty a-z word, so a trailing space adds no
   * word; and the words together hold exactly the letters of the text.
   */
  lemma WordTextTokens(s: string)
    requires WordText(s) && (s == [] || s[0] != ' ')
    ensures |JavaSplit(s, ' ')| >= 1
    ensures s == [] ==> JavaSplit(s, ' ') == [""]
    ensures s != [] ==> forall i :: 0 <= i < |JavaSplit(s, ' ')| ==> IsWord(JavaSplit(s, ' ')[i])
    ensures Flatten(JavaSplit(s, ' ')) == Letters(s)
  {
    PiecesOfWordText(s);
    FlattenPieces(s);
    if ' ' in s {
      var p := Pieces(s, ' ');
      var ws := DropTrailingEmpty(p);
      FlattenDropTrailingEmpty(p);
      forall i | 0 <= i < |ws| ensures IsWord(ws[i]) {
        SplitWordIsWord(s, p, ws, i);
      }
    } else {
      forall i | 0 <= i < |s| ensures IsLower(s[i]) {
        assert s[i] in s;
      }
    }
  }

  lemma SplitWordIsWord(s: string, p: seq<string>, ws: seq<string>, i: nat)
    requires WordText(s) && s != [] && s[0] != ' '
    requires p == Pieces(s, ' ') && ws == DropTrailingEmpty(p) && i < |ws|
    ensures IsWord(ws[i])
  {
    PiecesOfWordText(s);
    assert ws[i] == p[i];
    if i == |p| - 1 {
      assert |ws| == |p|;
    }
    PieceIsWord(s, p, i);
  }

  lemma PieceIsWord(s: string, p: seq<string>, i: nat)
    requires WordText(s) && p == Pieces(s, ' ')
    requires i < |p| && p[i] != ""
    ensures IsWord(p[i])
  {
    PiecesOfWordText(s);
    forall j | 0 <= j < |p[i]| ensures IsLower(p[i][j]) {
      var c := p[i][j];
      assert c in p[i];
      assert c in s;
      var k :| 0 <= k < |s| && s[k] == c;
    }
  }

  /** The words doWordCount counts: the split of the filtered line, or of the line as given when cleaning is on. */
  function Words(line: string, cMode: bool): seq<string> {
    JavaSplit(if cMode then line else Filter(line), ' ')
  }

  /**
   * With cleaning off, at least one word is counted; the words are non-empty a-z words
   * unless the filtered line is empty, in which case the only word is the empty one;
   * and the words together are the line's letters, case-folded, in order.
   */
  lemma FilteredWords(line: string)
    ensures var ws := Words(line, false);
      && |ws| >= 1
      && (Filter(line) == [] <==> ws == [""])
      && (Filter(line) != [] ==> forall i :: 0 <= i < |ws| ==> IsWord(ws[i]))
      && Flatten(ws) == FoldedLetters(line)
  {
    WordTextTokens(Filter(line));
    FilterKeepsLetters(line);
  }

  /** After text whose last kept character is a space, or that keeps nothing, the filter starts afresh. */
  lemma {:induction false} Restart(a: string, b: string)
    requires LastOr(Filter(a), ' ') == ' '
    ensures Filter(a + b) == Filter(a) + Filter(b)
    decreases |b|
  {
    if b == [] {
      assert a + b == a;
    } else {
      var b' := b[..|b| - 1];
      assert (a + b)[..|a + b| - 1] == a + b';
      assert (a + b)[|a + b| - 1] == b[|b| - 1];
      Restart(a, b');
      assert LastOr(Filter(a) + Filter(b'), ' ') == LastOr(Filter(b'), ' ');
    }
  }

  /**
   * A space read right after a kept letter survives the filter and separates what
   * comes before it from what comes after, which is filtered afresh.
   */
  lemma SpaceSeparates(a: string, b: string)
    requires LastOr(Filter(a), ' ') != ' '
    ensures Filter(a + " " + b) == Filter(a) + " " + Filter(b)
  {
    assert (a + " ")[..|a + " "| - 1] == a;
    assert Filter(a + " ") == Filter(a) + " ";
    Restart(a + " ", b);
  }

  /** Text without spaces filters to its case-folded letters. */
  lemma {:induction false} FilterNoSpace(a: string)
    requires ' ' !in a
    ensures Filter(a) == FoldedLetters(a)
    decreases |a|
  {
    if a != [] {
      var p := a[..|a| - 1];
      assert ' ' !in p by {
        forall i | 0 <= i < |p| ensures p[i] != ' ' { assert p[i] == a[i]; }
      }
      FilterNoSpace(p);
    }
  }

  /** Case folding leaves a word that is already lower case as it is. */
  lemma {:induction false} FoldedOfLower(w: string)
    requires forall i :: 0 <= i < |w| ==> IsLower(w[i])
    ensures FoldedLetters(w) == w
    decreases |w|
  {
    if w != [] {
      FoldedOfLower(w[..|w| - 1]);
    }
  }

  /** The case-folded letters of each piece, leaving out the pieces that hold no letter. */
  function FoldedWords(pieces: seq<string>): (r: seq<string>)
    ensures forall i :: 0 <= i < |r| ==> IsWord(r[i])
  {
    if pieces == [] then []
    else
      var w := FoldedLetters(pieces[0]);
      var rest := FoldedWords(pieces[1..]);
      assert forall i :: 0 < i < |[w] + rest| ==> ([w] + rest)[i] == rest[i - 1];
      (if w == "" then [] else [w]) + rest
  }

  /**
   * The words doWordCount counts with cleaning off are the line's space-separated
   * pieces, each reduced to its case-folded letters, with the pieces that hold no
   * letter left out; a line without any letter gives the single empty word.
   */
  lemma FilteredWordsArePieces(line: string)
    ensures var ws := FoldedWords(Pieces(line, ' '));
      Words(line, false) == if ws == [] then [""] else ws
  {
    SplitFilter(line);
  }

  lemma {:induction false} SplitFilter(line: string)
    ensures Filter(line) == "" <==> FoldedWords(Pieces(line, ' ')) == []
    ensures Filter(line) != "" ==> JavaSplit(Filter(line), ' ') == FoldedWords(Pieces(line, ' '))
    decreases |line|
  {
    if ' ' !in line {
      FilterNoSpace(line);
      assert FoldedWords([line]) == (if FoldedLetters(line) == "" then [] else [FoldedLetters(line)]) + FoldedWords([]);
    } else {
      var i := IndexOf(line, ' ');
      var a, b := line[..i], line[i + 1..];
      assert line == a + " " + b;
      assert ' ' !in a;
      PiecesAfter(a, ' ', b);
      var pb := Pieces(b, ' ');
      assert ([a] + pb)[0] == a && ([a] + pb)[1..] == pb;
      var w := FoldedLetters(a);
      assert FoldedWords(Pieces(line, ' ')) == (if w == "" then [] else [w]) + FoldedWords(pb);
      SplitFilter(b);
      FilterNoSpace(a);
      if w == "" {
        assert (a + " ")[..|a + " "| - 1] == a;
        assert Filter(a + " ") == "";
        Restart(a + " ", b);
        assert Filter(line) == Filter(b);
        assert FoldedWords(Pieces(line, ' ')) == FoldedWords(pb);
      } else {
        SpaceSeparates(a, b);
        SplitAfterWord(w, Filter(b));
      }
    }
  }

  /** Splitting a word, a space and filtered text gives the word followed by the text's words. */
  lemma SplitAfterWord(w: string, f: string)
    requires IsWord(w) && WordText(f) && (f == [] || f[0] != ' ')
    ensures JavaSplit(w + " " + f, ' ') == [w] + (if f == [] then [] else JavaSplit(f, ' '))
  {
    assert ' ' !in w by {
      forall i | 0 <= i < |w| ensures w[i] != ' ' { assert IsLower(w[i]); }
    }
    assert (w + " " + f)[|w|] == ' ';
    PiecesAfter(w, ' ', f);
    var pf := Pieces(f, ' ');
    assert ' ' in w + " " + f;
    if f == [] {
      assert [w] + pf == [w, ""];
      assert [w, ""][..1] == [w];
      assert DropTrailingEmpty([w, ""]) == DropTrailingEmpty([w]) == [w];
    } else {
      PiecesOfWordText(f);
      assert pf[0] != "";
      DropTrailingEmptyCons(w, pf);
      if ' ' !in f {
        assert DropTrailingEmpty(pf) == [f];
      }
    }
  }

  /** Dropping trailing empty strings after a head does not touch the head, when something else survives. */
  lemma {:induction false} DropTrailingEmptyCons(x: string, parts: seq<string>)
    requires parts != [] && parts[0] != ""
    ensures DropTrailingEmpty([x] + parts) == [x] + DropTrailingEmpty(parts)
    decreases |parts|
  {
    var xs := [x] + parts;
    if parts[|parts| - 1] == "" {
      assert |parts| > 1;
      assert xs[..|xs| - 1] == [x] + parts[..|parts| - 1];
      DropTrailingEmptyCons(x, parts[..|parts| - 1]);
    }
  }

  /** The example of the word count: "the" is counted twice, every other word once. */
  lemma CountExample(r: map<string, int>)
    requires Counted(map[], r, Words("The cat sat. The dog ran.", false))
    ensures r == map["the" := 2, "cat" := 1, "sat" := 1, "dog" := 1, "ran" := 1]
  {
    var ws := ExampleWords();
    ExampleCounted(r, ws, "the", "cat", "sat", "dog", "ran");
  }

  lemma ExampleCounted(r: map<string, int>, ws: seq<string>, the: string, cat: string, sat: string, dog: string, ran: string)
    requires the != cat && the != sat && the != dog && the != ran
    requires cat != sat && cat != dog && cat != ran && sat != dog && sat != ran && dog != ran
    requires ws == [the, cat, sat, the, dog, ran] && Counted(map[], r, ws)
    ensures r == map[the := 2, cat := 1, sat := 1, dog := 1, ran := 1]
  {
    assert r.Keys == {the, cat, sat, dog, ran};
    assert Count(r, the) == multiset(ws)[the] == 2;
    assert Count(r, cat) == multiset(ws)[cat] == 1;
    assert Count(r, sat) == multiset(ws)[sat] == 1;
    assert Count(r, dog) == multiset(ws)[dog] == 1;
    assert Count(r, ran) == multiset(ws)[ran] == 1;
  }

  lemma ExampleWords() returns (ws: seq<string>)
    ensures ws == Words("The cat sat. The dog ran.", false)
    ensures ws == ["the", "cat", "sat", "the", "dog", "ran"]
  {
    var pieces := ["The", "cat", "sat.", "The", "dog", "ran."];
    ExampleSentence();
    ws := WordsOfPieces(JoinWith(pieces, ' '), pieces);
  }

  /** The example sentence is its six pieces joined with spaces. */
  lemma ExampleSentence()
    ensures JoinWith(["The", "cat", "sat.", "The", "dog", "ran."], ' ') == "The cat sat. The dog ran."
  {
    var j := "The" + [' '] + ("cat" + [' '] + ("sat." + [' '] + ("The" + [' '] + ("dog" + [' '] + "ran."))));
    ExampleJoined(j);
    ExampleSpelled(j);
  }

  lemma ExampleJoined(j: string)
    requires j == "The" + [' '] + ("cat" + [' '] + ("sat." + [' '] + ("The" + [' '] + ("dog" + [' '] + "ran."))))
    ensures JoinWith(["The", "cat", "sat.", "The", "dog", "ran."], ' ') == j
  {
  }

  lemma ExampleSpelled(j: string)
    requires j == "The" + [' '] + ("cat" + [' '] + ("sat." + [' '] + ("The" + [' '] + ("dog" + [' '] + "ran."))))
    ensures j == "The cat sat. The dog ran."
  {
  }

  lemma WordsOfPieces(line: string, pieces: seq<string>) returns (ws: seq<string>)
    requires pieces == ["The", "cat", "sat.", "The", "dog", "ran."] && line == JoinWith(pieces, ' ')
    ensures ws == Words(line, false)
    ensures ws == ["the", "cat", "sat", "the", "dog", "ran"]
  {
    PiecesOfJoin(pieces, ' ');
    ExampleFolded(pieces);
    FilteredWordsArePieces(line);
    ws := ["the", "cat", "sat", "the", "dog", "ran"];
  }

  lemma ExampleFolded(pieces: seq<string>)
    requires pieces == ["The", "cat", "sat.", "The", "dog", "ran."]
    ensures FoldedWords(pieces) == ["the", "cat", "sat", "the", "dog", "ran"]
  {
    FoldedOfLower("cat");
    FoldedOfLower("dog");
    FoldedDropsStop("sat");
    FoldedDropsStop("ran");
    assert "sat" + "." == "sat." && "ran" + "." == "ran.";
    FoldedThe();
    FoldedWordsOfWords(pieces, ["the", "cat", "sat", "the", "dog", "ran"]);
  }

  lemma FoldedThe()
    ensures FoldedLetters("The") == "the"
  {
    FoldedStep("", 'T', "");
    FoldedStep("T", 'h', "t");
    FoldedStep("Th", 'e', "th");
  }

  /** A full stop after a lower-case word is dropped by the folding. */
  lemma FoldedDropsStop(w: string)
    requires forall i :: 0 <= i < |w| ==> IsLower(w[i])
    ensures FoldedLetters(w + ".") == w
  {
    FoldedOfLower(w);
    FoldedStep(w, '.', w);
  }

  /** When every piece holds a letter, the words are the pieces' folded letters, one for one. */
  lemma {:induction false} FoldedWordsOfWords(pieces: seq<string>, folded: seq<string>)
    requires |pieces| == |folded|
    requires forall i :: 0 <= i < |pieces| ==> FoldedLetters(pieces[i]) == folded[i] != ""
    ensures FoldedWords(pieces) == folded
    decreases |pieces|
  {
    if pieces != [] {
      FoldedWordsOfWords(pieces[1..], folded[1..]);
      assert folded == [folded[0]] + folded[1..];
    }
  }

  lemma FoldedStep(s: string, c: char, folded: string)
    requires FoldedLetters(s) == folded
    ensures FoldedLetters(s + [c]) == folded + if IsLower(LowerAscii(c)) then [LowerAscii(c)] else ""
  {
    assert (s + [c])[..|s|] == s;
  }

  /** A word's count in a table: absent words count 0. */
  function Count(table: map<string, int>, word: string): int {
    if word in table then table[word] else 0
  }

  /**
   * `after` is `before` with every word of `words` counted once per occurrence:
   * each count grows by the word's number of occurrences (an absent word starts from 0,
   * so its first occurrence gives 1), and no other key appears or changes.
   */
  ghost predicate Counted(before: map<string, int>, after: map<string, int>, words: seq<string>) {
    && after.Keys == before.Keys + (set w | w in words)
    && forall k :: Count(after, k) == Count(before, k) + multiset(words)[k]
  }

  /**
   * doWordCount: filters the line when cleaning is off, splits it on spaces, and adds
   * one to the count of each word. The Java method updates the client's table in place;
   * here the updated table is returned.
   */
  method DoWordCount(line: string, wc: map<string, int>, cMode: bool) returns (r: map<string, int>)
    ensures Counted(wc, r, Words(line, cMode))
  {
    var lineWC := line;
    if !cMode {
      lineWC := FilterLine(line);
    }
    var words := JavaSplit(lineWC, ' ');
    r := CountWords(words, wc);
  }

  /** The character loop of doWordCount, with the last kept character in a variable. */
  method FilterLine(line: string) returns (asciiLine: string)
    ensures asciiLine == Filter(line)
  {
    asciiLine := "";
    var lastAdded := ' ';
    for i := 0 to |line|
      invariant asciiLine == Filter(line[..i])
      invariant lastAdded == LastOr(asciiLine, ' ')
    {
      var cc := LowerAscii(line[i]);
      assert line[..i + 1][..i] == line[..i];
      if IsLower(cc) || (cc == ' ' && lastAdded != ' ') {
        asciiLine := asciiLine + [cc];
        lastAdded := cc;
      }
    }
    assert line[..|line|] == line;
  }

  /** The counting loop of doWordCount: a word already in the table goes up by one, a new word starts at 1. */
  method CountWords(words: seq<string>, wc: map<string, int>) returns (r: map<string, int>)
    ensures Counted(wc, r, words)
  {
    r := wc;
    for i := 0 to |words|
      invariant r.Keys == wc.Keys + (set w | w in words[..i])
      invariant forall k :: Count(r, k) == Count(wc, k) + multiset(words[..i])[k]
    {
      var s := words[i];
      assert words[..i + 1] == words[..i] + [s];
      if s in r {
        r := r[s := r[s] + 1];
      } else {
        r := r[s := 1];
      }
    }
    assert words[..|words|] == words;
  }
}
