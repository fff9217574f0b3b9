/**
 * The client side of the protocol: generateDocument, which slices a reference text
 * built from an HTML file into a document of the requested length, and the parser
 * getWordCount runs on the server's reply.
 *
 * The file is read line by line with BufferedReader.readLine; here its lines are a
 * parameter. The reply line comes from the socket; here it is a parameter too.
 */
module Client {
  import opened Wrappers
  import opened JavaText
  import opened Collections
  import Wire
  import Server

  // ---------------------------------------------------------- generateDocument

  /** The reference text: every line of the file, trimmed and followed by one space, in order. */
  function Reference(lines: seq<string>): string
    decreases |lines|
  {
    if lines == [] then "" else Reference(lines[..|lines| - 1]) + Trim(lines[|lines| - 1]) + " "
  }

  /** The reference text of a file is that of its first lines followed by that of the others. */
  lemma {:induction false} ReferenceAppend(a: seq<string>, b: seq<string>)
    ensures Reference(a + b) == Reference(a) + Reference(b)
    decreases |b|
  {
    if b == [] {
      assert a + b == a;
    } else {
      var b', x := b[..|b| - 1], b[|b| - 1];
      assert b == b' + [x];
      assert a + b == (a + b') + [x];
      ReferenceSnoc(a + b', x);
      ReferenceSnoc(b', x);
      ReferenceAppend(a, b');
      AppendAssoc(Reference(a), Reference(b'), Trim(x) + " ");
    }
  }

  lemma ReferenceSnoc(lines: seq<string>, line: string)
    ensures Reference(lines + [line]) == Reference(lines) + (Trim(line) + " ")
  {
    var all := lines + [line];
    assert all[..|all| - 1] == lines && all[|all| - 1] == line;
    assert Reference(all) == Reference(lines) + Trim(line) + " ";
    AppendAssoc(Reference(lines), Trim(line), " ");
  }

  /** Each line contributes at least its space, so the reference is empty exactly when the file is. */
  lemma {:induction false} ReferenceLength(lines: seq<string>)
    ensures |Reference(lines)| >= |lines|
    ensures Reference(lines) == "" <==> lines == []
    ensures lines != [] ==> Reference(lines)[|Reference(lines)| - 1] == ' '
    decreases |lines|
  {
    if lines != [] {
      ReferenceLength(lines[..|lines| - 1]);
    }
  }

  /** The reading loop of generateDocument. */
  method BuildReference(lines: seq<string>) returns (ref: string)
    ensures ref == Reference(lines)
  {
    ref := "";
    for i := 0 to |lines|
      invariant ref == Reference(lines[..i])
    {
      assert lines[..i + 1][..i] == lines[..i];
      ref := ref + Trim(lines[i]) + " ";
    }
    assert lines[..|lines|] == lines;
  }

  /** Why generateDocument throws. */
  datatype GenerateError =
    | NegativeLength      // new StringBuilder(length) with a negative capacity
    | EmptyReference      // the remainder by ref.length() when the file has no line
    | NegativeIndex(i: int)   // charAt of the negative remainder computed at position i

  /**
   * The position of the reference read for document position `i`: `i + seed` with
   * 32-bit wrap-around, then Java's remainder by the reference length, which is
   * negative when that sum is.
   */
  function SourceIndex(i: int, seed: int, n: int): (r: int)
    requires n > 0
    ensures -n < r < n
  {
    JavaRem(Wrap32(i + seed), n)
  }

  /** Every position before `length` reads a non-negative index. */
  ghost predicate IndicesValid(length: int, seed: int, n: int)
    requires n > 0
  {
    forall i :: 0 <= i < length ==> SourceIndex(i, seed, n) >= 0
  }

  /** What generateDocument writes for a reference character: the separator becomes '.'. */
  function Scrub(c: char): char {
    if c == Wire.SEPARATOR then '.' else c
  }

  /**
   * generateDocument after the file has been read into `lines`: `length` characters
   * taken round the reference text from offset `seed`, with every separator replaced
   * by '.'. Fails as the Java code throws: on a negative length, on an empty reference
   * (once a character is needed), and at the first position whose index is negative.
   */
  method GenerateDocument(lines: seq<string>, length: int, seed: int) returns (r: Result<string, GenerateError>)
    requires INT_MIN <= length <= INT_MAX && INT_MIN <= seed <= INT_MAX
    ensures var ref := Reference(lines);
      && (length < 0 <==> r == Failure(NegativeLength))
      && (r == Failure(EmptyReference) <==> length > 0 && ref == "")
      && (r.Success? <==> length >= 0 && (length == 0 || (ref != "" && IndicesValid(length, seed, |ref|))))
      && (r.Success? ==>
            && |r.value| == length
            && Wire.SEPARATOR !in r.value
            && forall i :: 0 <= i < length ==> r.value[i] == Scrub(ref[SourceIndex(i, seed, |ref|)]))
      && (r.Failure? && r.error.NegativeIndex? ==> ref != "" && FirstNegative(r.error.i, length, seed, |ref|))
  {
    var ref := BuildReference(lines);
    if length < 0 {
      return Failure(NegativeLength);
    }
    r := Slice(ref, length, seed);
    if r.Success? {
      var doc := ReplaceChar(r.value, Wire.SEPARATOR, '.');
      assert Wire.SEPARATOR !in doc by {
        forall j | 0 <= j < |doc| ensures doc[j] != Wire.SEPARATOR { }
      }
      r := Success(doc);
    }
  }

  /** Position `i` is the first one before `length` whose index is negative. */
  ghost predicate FirstNegative(i: int, length: int, seed: int, n: int)
    requires n > 0
  {
    0 <= i < length && SourceIndex(i, seed, n) < 0 && IndicesValid(i, seed, n)
  }

  /** The slicing loop of generateDocument, before the separators are replaced. */
  method Slice(ref: string, length: int, seed: int) returns (r: Result<string, GenerateError>)
    requires 0 <= length <= INT_MAX && INT_MIN <= seed <= INT_MAX
    ensures r.Failure? ==> r.error == EmptyReference || r.error.NegativeIndex?
    ensures r == Failure(EmptyReference) <==> length > 0 && ref == ""
    ensures r.Success? <==> length == 0 || (ref != "" && IndicesValid(length, seed, |ref|))
    ensures r.Success? ==>
      && |r.value| == length
      && forall i :: 0 <= i < length ==> r.value[i] == ref[SourceIndex(i, seed, |ref|)]
    ensures r.Failure? && r.error.NegativeIndex? ==> ref != "" && FirstNegative(r.error.i, length, seed, |ref|)
  {
    var sb := "";
    for i := 0 to length
      invariant |sb| == i
      invariant i > 0 ==> ref != ""
      invariant ref != "" ==> IndicesValid(i, seed, |ref|)
      invariant ref != "" ==> forall j :: 0 <= j < i ==> sb[j] == ref[SourceIndex(j, seed, |ref|)]
    {
      if |ref| == 0 {
        return Failure(EmptyReference);
      }
      var k := JavaRem(Wrap32(i + seed), |ref|);
      assert k == SourceIndex(i, seed, |ref|);
      if k < 0 {
        return Failure(NegativeIndex(i));
      }
      sb := sb + [ref[k]];
    }
    r := Success(sb);
  }

  /**
   * Without overflow of `i + seed`, every index is valid and position i reads
   * reference position (i + seed) mod |ref|; this needs a non-negative seed and a
   * non-empty reference.
   */
  lemma SlicingWithoutOverflow(length: int, seed: int, n: int)
    requires n > 0 && 0 <= seed && length + seed <= INT_MAX + 1
    ensures IndicesValid(length, seed, n)
    ensures forall i :: 0 <= i < length ==> SourceIndex(i, seed, n) == (i + seed) % n
  {
    forall i | 0 <= i < length
      ensures SourceIndex(i, seed, n) == (i + seed) % n
    {
      assert Wrap32(i + seed) == i + seed;
    }
  }

  /**
   * A seed that makes `i + seed` overflow wraps the sum to a negative int, so the index
   * is at most 0. It is negative, and generateDocument fails there, unless the reference
   * length divides 2^32 - i - seed, in which case position i reads reference position 0.
   */
  lemma OverflowFails(i: int, seed: int, n: int)
    requires n > 0 && 0 <= i <= INT_MAX && 0 <= seed <= INT_MAX && i + seed > INT_MAX
    ensures Wrap32(i + seed) == i + seed - TWO_TO_32
    ensures SourceIndex(i, seed, n) <= 0
    ensures SourceIndex(i, seed, n) < 0 <==> (TWO_TO_32 - i - seed) % n != 0
  {
    var x := i + seed;
    assert 0 <= x - INT_MIN - TWO_TO_32 < TWO_TO_32;
    assert (x - INT_MIN) % TWO_TO_32 == x - INT_MIN - TWO_TO_32;
    assert SourceIndex(i, seed, n) == -((TWO_TO_32 - i - seed) % n);
  }

  // ----------------------------------------------------------- getWordCount

  /**
   * BufferedReader.readLine on what the server has sent: the text before the first
   * '\n' or '\r'; None (Java's null) at the end of the stream.
   */
  function ReadLine(stream: string): (r: Option<string>)
    ensures r.None? <==> stream == ""
    ensures r.Some? ==>
      && r.value <= stream
      && '\n' !in r.value && '\r' !in r.value
      && (|r.value| < |stream| ==> stream[|r.value|] == '\n' || stream[|r.value|] == '\r')
  {
    if stream == [] then None else Some(LineOf(stream))
  }

  function LineOf(stream: string): (r: string)
    ensures r <= stream && '\n' !in r && '\r' !in r
    ensures |r| < |stream| ==> stream[|r|] == '\n' || stream[|r|] == '\r'
    decreases |stream|
  {
    if stream == [] || stream[0] == '\n' || stream[0] == '\r' then ""
    else [stream[0]] + LineOf(stream[1..])
  }

  /** A line without terminators followed by '\n' is read back whole. */
  lemma {:induction false} ReadLineOfLine(line: string)
    requires '\n' !in line && '\r' !in line
    ensures ReadLine(line + "\n") == Some(line)
    decreases |line|
  {
    if line != [] {
      assert line[0] in line;
      assert (line + "\n")[1..] == line[1..] + "\n";
      ReadLineOfLine(line[1..]);
      assert [line[0]] + line[1..] == line;
    }
  }

  /** Why getWordCount throws. */
  datatype ParseError =
    | NoReply               // readLine returned null: split on it throws
    | MissingCount          // an odd number of parts: rParts[i+1] is out of bounds
    | BadCount(part: string)  // new Integer(part) throws NumberFormatException

  /** The stride-2 loop of getWordCount over the parts, from the table `acc` built so far. */
  function ParsePairs(acc: map<string, int>, parts: seq<string>): Result<map<string, int>, ParseError>
    decreases |parts|
  {
    if parts == [] then Success(acc)
    else if |parts| == 1 then Failure(MissingCount)
    else
      match ParseInt(parts[1])
      case None => Failure(BadCount(parts[1]))
      case Some(v) => ParsePairs(acc[parts[0] := v], parts[2..])
  }

  /** getWordCount on the reply line: the comma-separated parts read as word, count, word, count, ... */
  function ParseReply(response: Option<string>): Result<map<string, int>, ParseError> {
    match response
    case None => Failure(NoReply)
    case Some(line) => ParsePairs(map[], JavaSplit(line, ','))
  }

  /** The parsing loop of getWordCount; `DEBUG` is a constant true, so the table is always parsed. */
  method GetWordCount(response: Option<string>) returns (r: Result<map<string, int>, ParseError>)
    ensures r == ParseReply(response)
  {
    if response.None? {
      return Failure(NoReply);
    }
    var rParts := JavaSplit(response.value, ',');
    var wordMap: map<string, int> := map[];
    var i := 0;
    while i < |rParts|
      invariant 0 <= i <= |rParts|
      invariant ParsePairs(wordMap, rParts[i..]) == ParsePairs(map[], rParts)
      decreases |rParts| - i
    {
      if i + 1 >= |rParts| {
        return Failure(MissingCount);
      }
      var count := ParseInt(rParts[i + 1]);
      if count.None? {
        return Failure(BadCount(rParts[i + 1]));
      }
      assert rParts[i..][2..] == rParts[i + 2..];
      wordMap := wordMap[rParts[i] := count.value];
      i := i + 2;
    }
    assert rParts[i..] == [];
    r := Success(wordMap);
  }

  /**
   * The parse succeeds exactly when there is an even number of parts and every
   * second part, from the second on, is a valid int.
   */
  lemma {:induction false} ParseSucceeds(acc: map<string, int>, parts: seq<string>)
    ensures ParsePairs(acc, parts).Success? <==>
      |parts| % 2 == 0 && forall i :: 0 <= i < |parts| / 2 ==> ParseInt(parts[2 * i + 1]).Some?
    decreases |parts|
  {
    if |parts| >= 2 {
      var rest := parts[2..];
      assert |parts| / 2 == |rest| / 2 + 1 && |parts| % 2 == |rest| % 2;
      match ParseInt(parts[1]) {
        case None =>
          assert ParsePairs(acc, parts).Failure?;
          assert 0 < |parts| / 2 && ParseInt(parts[2 * 0 + 1]).None?;
        case Some(v) =>
          assert ParsePairs(acc, parts) == ParsePairs(acc[parts[0] := v], rest);
          ParseSucceeds(acc[parts[0] := v], rest);
          if forall i :: 0 <= i < |rest| / 2 ==> ParseInt(rest[2 * i + 1]).Some? {
            forall i | 0 <= i < |parts| / 2 ensures ParseInt(parts[2 * i + 1]).Some? {
              if i > 0 {
                assert parts[2 * i + 1] == rest[2 * (i - 1) + 1];
              }
            }
          }
          if forall i :: 0 <= i < |parts| / 2 ==> ParseInt(parts[2 * i + 1]).Some? {
            forall i | 0 <= i < |rest| / 2 ensures ParseInt(rest[2 * i + 1]).Some? {
              assert rest[2 * i + 1] == parts[2 * (i + 1) + 1];
            }
          }
      }
    }
  }

  /** A pair appended after an even number of parts overwrites whatever the earlier pairs gave its word. */
  lemma {:induction false} ParseLastPairWins(acc: map<string, int>, parts: seq<string>, word: string, count: string, v: int)
    requires |parts| % 2 == 0 && ParseInt(count) == Some(v)
    ensures ParsePairs(acc, parts + [word, count]) ==
      match ParsePairs(acc, parts)
      case Success(m) => Success(m[word := v])
      case Failure(e) => Failure(e)
    decreases |parts|
  {
    if parts == [] {
      assert parts + [word, count] == [word, count];
      assert [word, count][2..] == [];
    } else {
      assert (parts + [word, count])[2..] == parts[2..] + [word, count];
      assert (parts + [word, count])[1] == parts[1];
      match ParseInt(parts[1]) {
        case None =>
        case Some(v1) => ParseLastPairWins(acc[parts[0] := v1], parts[2..], word, count, v);
      }
    }
  }

  /** Parsing the fields of a rendered table puts every rendered entry into `acc`. */
  lemma {:induction false} ParseFields(acc: map<string, int>, t: map<string, int>, order: seq<string>)
    requires forall i :: 0 <= i < |order| ==> order[i] in t && INT_MIN <= t[order[i]] <= INT_MAX
    ensures ParsePairs(acc, Wire.Fields(t, order)).Success?
    ensures var m := ParsePairs(acc, Wire.Fields(t, order)).value;
      && m.Keys == acc.Keys + (set k | k in order)
      && (forall k :: k in order ==> m[k] == t[k])
      && (forall k :: k in acc && k !in order ==> m[k] == acc[k])
    decreases |order|
  {
    if order != [] {
      var k := order[0];
      var f := Wire.Fields(t, order);
      ParseShowInt(t[k]);
      assert f[2..] == Wire.Fields(t, order[1..]);
      ParseFields(acc[k := t[k]], t, order[1..]);
      assert forall k' :: k' in order <==> k' == k || k' in order[1..];
    }
  }

  /**
   * Round trip: the reply the server serialises for a table, read as a line and
   * parsed, gives back the table, whatever order the entries were written in,
   * provided the table is not empty, no word holds ',', '\n' or '\r', and every
   * count is a 32-bit int.
   */
  lemma ReplyRoundTrip(t: map<string, int>, order: seq<string>)
    requires IsEnumeration(order, t.Keys) && t != map[]
    requires forall k :: k in t ==> ',' !in k && '\n' !in k && '\r' !in k && INT_MIN <= t[k] <= INT_MAX
    ensures ParseReply(ReadLine(Wire.Render(t, order) + "\n")) == Success(t)
  {
    var line := Wire.Render(t, order);
    Wire.RenderAvoids(t, order, '\n');
    Wire.RenderAvoids(t, order, '\r');
    ReadLineOfLine(line);
    var k :| k in t;
    assert order != [];
    Wire.SplitRender(t, order);
    FieldsParseBack(t, order);
  }

  /** Parsing the fields of a table, written in the order of an enumeration of its keys, gives the table. */
  lemma FieldsParseBack(t: map<string, int>, order: seq<string>)
    requires IsEnumeration(order, t.Keys)
    requires forall k :: k in t ==> INT_MIN <= t[k] <= INT_MAX
    ensures ParsePairs(map[], Wire.Fields(t, order)) == Success(t)
  {
    ParseFields(map[], t, order);
    var m := ParsePairs(map[], Wire.Fields(t, order)).value;
    assert m.Keys == t.Keys;
    assert m == t;
  }

  /**
   * The same for the tables the server builds: their keys are words of a-z (or the
   * empty word), so only the counts must fit in 32 bits.
   */
  lemma ServerReplyRoundTrip(t: map<string, int>, order: seq<string>)
    requires Server.WordTable(t) && t != map[] && IsEnumeration(order, t.Keys)
    requires forall k :: k in t ==> t[k] <= INT_MAX
    ensures ParseReply(ReadLine(Wire.Render(t, order) + "\n")) == Success(t)
  {
    forall k | k in t
      ensures ',' !in k && '\n' !in k && '\r' !in k && INT_MIN <= t[k] <= INT_MAX
    {
      assert Server.IsKey(k);
    }
    ReplyRoundTrip(t, order);
  }

  /** The reply for an empty table is an empty line, whose single empty part has no count. */
  lemma EmptyReplyFails()
    ensures ParseReply(ReadLine(Wire.Render(map[], []) + "\n")) == Failure(MissingCount)
  {
    ReadLineOfLine("");
    assert Wire.Render(map[], []) + "\n" == "" + "\n";
  }
}
