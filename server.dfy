/**
 * The WoCoServer object: per-client receive buffers, word tables and latency samples,
 * and the lane of each client in multi-threaded mode.
 *
 * Every Java map here is a field of type `map` that the methods reassign; the value
 * of all of them together is a `ServerState`, and each method is specified by the
 * function that gives the new `ServerState` from the old one. The latency samples
 * are measured with System.nanoTime; the clock readings are parameters of the
 * methods that record them. In multi-threaded mode the Java code hands the cleaning,
 * counting and serialising of a completed document to the client's single-thread
 * executor; here those steps run at once, in the same order, and the reply the lane
 * would write to the socket is returned.
 */
module Server {
  import opened Wrappers
  import opened Collections
  import JavaText
  import WordCount
  import HtmlClean
  import Wire
  import Framing
  import Lanes

  /** A client is identified by the hash code of its connection. */
  type ClientId = int

  /** The samples recorded for a client, none while it has no list. */
  function SamplesOf(stats: map<ClientId, seq<real>>, id: ClientId): seq<real> {
    if id in stats then stats[id] else []
  }

  /** The client's receive buffer, empty while it has none. */
  function BufferOf(buffer: map<ClientId, string>, id: ClientId): string {
    if id in buffer then buffer[id] else ""
  }

  /** The client's word table, empty while it has none. */
  function TableOf(results: map<ClientId, map<string, int>>, id: ClientId): map<string, int> {
    if id in results then results[id] else map[]
  }

  /** Milliseconds between two nanosecond clock readings. */
  function ElapsedMs(startNs: int, endNs: int): real {
    (endNs - startNs) as real / 1000000.0
  }

  /** The words counted for a completed document: cleaned first when cleaning is on, filtered by the counter otherwise. */
  function DocumentWords(doc: string, cMode: bool): seq<string> {
    WordCount.Words(if cMode then HtmlClean.Clean(doc) else doc, cMode)
  }

  /** What can be a key of a word table: a word of letters a-z, or the empty word of an empty document. */
  ghost predicate IsKey(k: string) {
    k == "" || WordCount.IsWord(k)
  }

  /** A word table as the server builds it: every key is a word (or the empty word) counted at least once. */
  ghost predicate WordTable(t: map<string, int>) {
    forall k :: k in t ==> IsKey(k) && t[k] >= 1
  }

  /** Every document yields at least one word to count, and each is a word of a-z or the empty word. */
  lemma DocumentWordsAreKeys(doc: string, cMode: bool)
    ensures |DocumentWords(doc, cMode)| >= 1
    ensures forall i :: 0 <= i < |DocumentWords(doc, cMode)| ==> IsKey(DocumentWords(doc, cMode)[i])
  {
    if cMode {
      CleanedWordsAreKeys(doc, DocumentWords(doc, cMode));
    } else {
      WordCount.FilteredWords(doc);
    }
  }

  lemma CleanedWordsAreKeys(doc: string, words: seq<string>)
    requires words == DocumentWords(doc, true)
    ensures |words| >= 1 && forall i :: 0 <= i < |words| ==> IsKey(words[i])
  {
    HtmlClean.CleanIsWordText(doc);
    SplitWordsAreKeys(HtmlClean.Clean(doc), words);
  }

  lemma SplitWordsAreKeys(text: string, words: seq<string>)
    requires JavaText.WordText(text) && (text == [] || text[0] != ' ')
    requires words == WordCount.Words(text, true)
    ensures |words| >= 1 && forall i :: 0 <= i < |words| ==> IsKey(words[i])
  {
    WordCount.WordTextTokens(text);
  }

  /** Counting the words of a document into a word table gives a non-empty word table. */
  lemma CountingKeepsWordTable(before: map<string, int>, after: map<string, int>, doc: string, cMode: bool)
    requires WordTable(before)
    requires WordCount.Counted(before, after, DocumentWords(doc, cMode))
    ensures WordTable(after) && after != map[]
  {
    var words := DocumentWords(doc, cMode);
    DocumentWordsAreKeys(doc, cMode);
    forall k | k in after ensures IsKey(k) && after[k] >= 1 {
      assert WordCount.Count(after, k) == WordCount.Count(before, k) + multiset(words)[k];
      if k !in before {
        assert k in words;
        var i :| 0 <= i < |words| && words[i] == k;
      }
    }
    assert words[0] in after;
  }

  /** The work a lane does on a completed document: clean it when cleaning is on, then count its words into the table. */
  method ProcessDocument(line: string, wc: map<string, int>, cMode: bool) returns (table: map<string, int>)
    requires WordTable(wc)
    ensures WordCount.Counted(wc, table, DocumentWords(line, cMode))
    ensures WordTable(table) && table != map[]
  {
    var docLine := line;
    if cMode {
      docLine := HtmlClean.CleanDocument(docLine);
    }
    table := WordCount.DoWordCount(docLine, wc, cMode);
    CountingKeepsWordTable(wc, table, line, cMode);
  }

  /** The value of the server's maps and lane cursor. */
  datatype ServerState = ServerState(
    buffer: map<ClientId, string>,
    results: map<ClientId, map<string, int>>,
    recStats: map<ClientId, seq<real>>,
    cleanStats: map<ClientId, seq<real>>,
    wcStats: map<ClientId, seq<real>>,
    serStats: map<ClientId, seq<real>>,
    recStart: map<ClientId, int>,
    lanes: map<ClientId, nat>,
    next: nat)

  /** No clients, and the lane cursor at 0. */
  function Initial(): ServerState {
    ServerState(map[], map[], map[], map[], map[], map[], map[], map[], 0)
  }

  /** Lanes and cursor in range, and unused in single-threaded mode; a lane exactly for the clients that completed a document. */
  ghost predicate LanesAssigned(threadCount: int, s: ServerState) {
    && (threadCount > 1 ==> Lanes.InRange(s.lanes, s.next, threadCount) && s.lanes.Keys == s.cleanStats.Keys)
    && (threadCount <= 1 ==> s.lanes == map[] && s.next == 0)
  }

  /**
   * A buffer and a receive list for every client seen, a table only for those, and
   * one receive, clean and count sample per completed document.
   */
  ghost predicate SamplesAligned(s: ServerState) {
    Aligned(s.buffer, s.results, s.recStats, s.cleanStats, s.wcStats)
  }

  ghost predicate Aligned(buffer: map<ClientId, string>, results: map<ClientId, map<string, int>>,
                          rec: map<ClientId, seq<real>>, clean: map<ClientId, seq<real>>, wc: map<ClientId, seq<real>>)
  {
    && buffer.Keys == rec.Keys
    && results.Keys <= rec.Keys
    && clean.Keys == wc.Keys
    && (forall c :: c in rec ==> (c in clean <==> rec[c] != []))
    && (forall c :: c in clean ==> c in rec && |clean[c]| == |rec[c]| && |wc[c]| == |rec[c]|)
  }

  /** Every stored table is a word table as counting builds them. */
  ghost predicate TablesCounted(s: ServerState) {
    forall c :: c in s.results ==> WordTable(s.results[c])
  }

  /** The relations the server keeps between its maps. */
  ghost predicate Consistent(threadCount: int, s: ServerState) {
    LanesAssigned(threadCount, s) && SamplesAligned(s) && TablesCounted(s)
  }

  /** A new server keeps the relations, whatever its number of lanes. */
  lemma InitialConsistent(threadCount: int)
    ensures Consistent(threadCount, Initial())
  {
  }

  /** The reactor loop notes when the first chunk of a client's document arrived. */
  function AfterReadStart(s: ServerState, id: ClientId, now: int): ServerState {
    if id in s.recStart then s else s.(recStart := s.recStart[id := now])
  }

  /** First contact creates the client's receive list, table and buffer; the chunk is appended to the buffer. */
  function AfterIntake(s: ServerState, id: ClientId, chunk: string): ServerState {
    s.(buffer := s.buffer[id := BufferOf(s.buffer, id) + chunk],
       results := s.results[id := TableOf(s.results, id)],
       recStats := s.recStats[id := SamplesOf(s.recStats, id)])
  }

  /**
   * The receive sample is recorded and the buffer keeps what followed the separator;
   * the start time is forgotten when nothing did.
   */
  function AfterTake(s: ServerState, id: ClientId, rest: string, recMs: real): ServerState
    requires id in s.recStats
  {
    s.(buffer := s.buffer[id := rest],
       recStats := s.recStats[id := s.recStats[id] + [recMs]],
       recStart := if rest == "" then s.recStart - {id} else s.recStart)
  }

  /** In multi-threaded mode a client without a lane gets the lane under the cursor, and the cursor moves on. */
  function AfterLane(s: ServerState, threadCount: int, id: ClientId): ServerState
    requires s.next < threadCount
  {
    var (lanes, next) := Lanes.Assign(s.lanes, s.next, threadCount, id);
    s.(lanes := lanes, next := next)
  }

  /** The counted table is stored with one clean and one count sample. */
  function AfterWork(s: ServerState, id: ClientId, table: map<string, int>, cleanMs: real, countMs: real): ServerState {
    s.(results := s.results[id := table],
       cleanStats := s.cleanStats[id := SamplesOf(s.cleanStats, id) + [cleanMs]],
       wcStats := s.wcStats[id := SamplesOf(s.wcStats, id) + [countMs]])
  }

  /** A completed document before its table is serialised. */
  function AfterDocument(s: ServerState, threadCount: int, id: ClientId, rest: string, recMs: real,
                         table: map<string, int>, cleanMs: real, countMs: real): ServerState
    requires id in s.recStats
    requires threadCount > 1 ==> s.next < threadCount
  {
    var taken := AfterTake(s, id, rest, recMs);
    AfterWork(if threadCount > 1 then AfterLane(taken, threadCount, id) else taken, id, table, cleanMs, countMs)
  }

  /** Serialising removes the client's table and records a serialisation sample; without a table nothing changes. */
  function AfterSerialize(s: ServerState, id: ClientId, serMs: real): ServerState {
    if id in s.results then
      s.(results := s.results - {id}, serStats := s.serStats[id := SamplesOf(s.serStats, id) + [serMs]])
    else s
  }

  /**
   * receiveData on one chunk, where `table` is the client's table with the words of
   * the completed document counted in: intake, and when the chunk holds the separator
   * the document step, followed in multi-threaded mode by the lane's serialisation.
   */
  function AfterReceive(s: ServerState, threadCount: int, id: ClientId, chunk: string, recEnd: int,
                        table: map<string, int>, cleanMs: real, countMs: real, serMs: real): ServerState
    requires Wire.SEPARATOR in chunk ==> id in s.recStart
    requires threadCount > 1 ==> s.next < threadCount
  {
    var f := Framing.Extract(BufferOf(s.buffer, id), chunk);
    var s1 := AfterIntake(s, id, chunk);
    if !f.complete then s1
    else
      var s2 := AfterDocument(s1, threadCount, id, f.buffer, ElapsedMs(s.recStart[id], recEnd), table, cleanMs, countMs);
      if threadCount > 1 then AfterSerialize(s2, id, serMs) else s2
  }

  lemma IntakeConsistent(threadCount: int, s: ServerState, id: ClientId, chunk: string)
    requires Consistent(threadCount, s)
    ensures Consistent(threadCount, AfterIntake(s, id, chunk))
  {
  }

  lemma DocumentLanes(threadCount: int, s: ServerState, id: ClientId, rest: string, recMs: real,
                      table: map<string, int>, cleanMs: real, countMs: real)
    requires LanesAssigned(threadCount, s) && id in s.recStats
    ensures LanesAssigned(threadCount, AfterDocument(s, threadCount, id, rest, recMs, table, cleanMs, countMs))
  {
    var t := AfterDocument(s, threadCount, id, rest, recMs, table, cleanMs, countMs);
    if threadCount > 1 {
      Lanes.AssignKeeps(s.lanes, s.next, threadCount, id);
      var (lanes, next) := Lanes.Assign(s.lanes, s.next, threadCount, id);
      assert t.lanes == lanes && t.next == next;
      assert t.cleanStats.Keys == s.cleanStats.Keys + {id};
    } else {
      assert t.lanes == s.lanes && t.next == s.next;
    }
  }

  /** One receive, one clean and one count sample for a completed document keep the samples aligned. */
  lemma AlignedAfterDocument(buffer: map<ClientId, string>, results: map<ClientId, map<string, int>>,
                             rec: map<ClientId, seq<real>>, clean: map<ClientId, seq<real>>, wc: map<ClientId, seq<real>>,
                             id: ClientId, rest: string, table: map<string, int>, recMs: real, cleanMs: real, countMs: real)
    requires Aligned(buffer, results, rec, clean, wc) && id in rec
    ensures Aligned(buffer[id := rest], results[id := table], rec[id := rec[id] + [recMs]],
                    clean[id := SamplesOf(clean, id) + [cleanMs]], wc[id := SamplesOf(wc, id) + [countMs]])
  {
    var rec', clean', wc' := rec[id := rec[id] + [recMs]], clean[id := SamplesOf(clean, id) + [cleanMs]], wc[id := SamplesOf(wc, id) + [countMs]];
    forall c | c in clean' ensures c in rec' && |clean'[c]| == |rec'[c]| && |wc'[c]| == |rec'[c]| {
      if c == id && id !in clean {
        assert rec[id] == [];
      }
    }
  }

  lemma DocumentSamples(threadCount: int, s: ServerState, id: ClientId, rest: string, recMs: real,
                        table: map<string, int>, cleanMs: real, countMs: real)
    requires SamplesAligned(s) && id in s.recStats && (threadCount > 1 ==> s.next < threadCount)
    ensures SamplesAligned(AfterDocument(s, threadCount, id, rest, recMs, table, cleanMs, countMs))
  {
    var t := AfterDocument(s, threadCount, id, rest, recMs, table, cleanMs, countMs);
    AlignedAfterDocument(s.buffer, s.results, s.recStats, s.cleanStats, s.wcStats, id, rest, table, recMs, cleanMs, countMs);
    assert t.buffer == s.buffer[id := rest];
    assert t.recStats == s.recStats[id := s.recStats[id] + [recMs]];
    assert t.cleanStats == s.cleanStats[id := SamplesOf(s.cleanStats, id) + [cleanMs]];
    assert t.wcStats == s.wcStats[id := SamplesOf(s.wcStats, id) + [countMs]];
    assert t.results == s.results[id := table];
  }

  lemma DocumentConsistent(threadCount: int, s: ServerState, id: ClientId, rest: string, recMs: real,
                           table: map<string, int>, cleanMs: real, countMs: real)
    requires Consistent(threadCount, s) && id in s.recStats && WordTable(table)
    ensures Consistent(threadCount, AfterDocument(s, threadCount, id, rest, recMs, table, cleanMs, countMs))
  {
    DocumentLanes(threadCount, s, id, rest, recMs, table, cleanMs, countMs);
    DocumentSamples(threadCount, s, id, rest, recMs, table, cleanMs, countMs);
    assert AfterDocument(s, threadCount, id, rest, recMs, table, cleanMs, countMs).results == s.results[id := table];
  }

  lemma SerializeConsistent(threadCount: int, s: ServerState, id: ClientId, serMs: real)
    requires Consistent(threadCount, s)
    ensures Consistent(threadCount, AfterSerialize(s, id, serMs))
  {
  }

  /** receiveData keeps the relations between the server's maps, whatever chunk arrives. */
  lemma ReceiveConsistent(threadCount: int, s: ServerState, id: ClientId, chunk: string, recEnd: int,
                          table: map<string, int>, cleanMs: real, countMs: real, serMs: real)
    requires Consistent(threadCount, s) && WordTable(table)
    requires Wire.SEPARATOR in chunk ==> id in s.recStart
    ensures Consistent(threadCount, AfterReceive(s, threadCount, id, chunk, recEnd, table, cleanMs, countMs, serMs))
  {
    var f := Framing.Extract(BufferOf(s.buffer, id), chunk);
    var s1 := AfterIntake(s, id, chunk);
    IntakeConsistent(threadCount, s, id, chunk);
    if f.complete {
      var s2 := AfterDocument(s1, threadCount, id, f.buffer, ElapsedMs(s.recStart[id], recEnd), table, cleanMs, countMs);
      DocumentConsistent(threadCount, s1, id, f.buffer, ElapsedMs(s.recStart[id], recEnd), table, cleanMs, countMs);
      SerializeConsistent(threadCount, s2, id, serMs);
    }
  }

  /**
   * Framing as receiveData does it: a chunk without the separator is appended to the
   * client's buffer; a chunk with it completes the document before the first
   * separator of the buffer, and the buffer keeps exactly what follows that separator.
   */
  lemma ReceiveFrames(threadCount: int, s: ServerState, id: ClientId, chunk: string, recEnd: int,
                      table: map<string, int>, cleanMs: real, countMs: real, serMs: real)
    requires Consistent(threadCount, s)
    requires Wire.SEPARATOR in chunk ==> id in s.recStart
    ensures var r := AfterReceive(s, threadCount, id, chunk, recEnd, table, cleanMs, countMs, serMs);
      var doc := Framing.Extract(BufferOf(s.buffer, id), chunk).doc;
      && id in r.buffer
      && (Wire.SEPARATOR !in chunk ==> r.buffer[id] == BufferOf(s.buffer, id) + chunk && r.recStart == s.recStart)
      && (Wire.SEPARATOR in chunk ==>
            && BufferOf(s.buffer, id) + chunk == doc + [Wire.SEPARATOR] + r.buffer[id]
            && Wire.SEPARATOR !in doc
            && (id in r.recStart <==> r.buffer[id] != ""))
  {
    var s1 := AfterIntake(s, id, chunk);
    if Wire.SEPARATOR in chunk {
      var f := Framing.Extract(BufferOf(s.buffer, id), chunk);
      var recMs := ElapsedMs(s.recStart[id], recEnd);
      DocumentFrames(threadCount, s1, id, f.buffer, recMs, table, cleanMs, countMs);
    }
  }

  /** Completing a document leaves the rest in the buffer, and a start time exactly when that rest is not empty. */
  lemma DocumentFrames(threadCount: int, s: ServerState, id: ClientId, rest: string, recMs: real,
                       table: map<string, int>, cleanMs: real, countMs: real)
    requires id in s.recStats && (threadCount > 1 ==> s.next < threadCount)
    requires id in s.recStart
    ensures var t := AfterDocument(s, threadCount, id, rest, recMs, table, cleanMs, countMs);
      && id in t.buffer && t.buffer[id] == rest
      && (id in t.recStart <==> rest != "")
  {
    var s1 := AfterTake(s, id, rest, recMs);
    assert s1.buffer[id] == rest && (id in s1.recStart <==> rest != "");
    var s2 := if threadCount > 1 then AfterLane(s1, threadCount, id) else s1;
    assert s2.buffer == s1.buffer && s2.recStart == s1.recStart;
  }

  /**
   * From `s` to `t`, client `id` gained `n` receive, clean and count samples and
   * `nSer` serialisation samples, and kept the samples it had.
   */
  ghost predicate Appended(s: ServerState, t: ServerState, id: ClientId, n: nat, nSer: nat) {
    && |SamplesOf(t.recStats, id)| == |SamplesOf(s.recStats, id)| + n && SamplesOf(s.recStats, id) <= SamplesOf(t.recStats, id)
    && |SamplesOf(t.cleanStats, id)| == |SamplesOf(s.cleanStats, id)| + n && SamplesOf(s.cleanStats, id) <= SamplesOf(t.cleanStats, id)
    && |SamplesOf(t.wcStats, id)| == |SamplesOf(s.wcStats, id)| + n && SamplesOf(s.wcStats, id) <= SamplesOf(t.wcStats, id)
    && |SamplesOf(t.serStats, id)| == |SamplesOf(s.serStats, id)| + nSer && SamplesOf(s.serStats, id) <= SamplesOf(t.serStats, id)
  }

  lemma AppendedTransitive(s: ServerState, t: ServerState, u: ServerState, id: ClientId, n1: nat, m1: nat, n2: nat, m2: nat)
    requires Appended(s, t, id, n1, m1) && Appended(t, u, id, n2, m2)
    ensures Appended(s, u, id, n1 + n2, m1 + m2)
  {
  }

  lemma DocumentAppends(threadCount: int, s: ServerState, id: ClientId, rest: string, recMs: real,
                        table: map<string, int>, cleanMs: real, countMs: real)
    requires id in s.recStats && (threadCount > 1 ==> s.next < threadCount)
    ensures Appended(s, AfterDocument(s, threadCount, id, rest, recMs, table, cleanMs, countMs), id, 1, 0)
    ensures id in AfterDocument(s, threadCount, id, rest, recMs, table, cleanMs, countMs).results
  {
    var t := AfterDocument(s, threadCount, id, rest, recMs, table, cleanMs, countMs);
    assert t.recStats[id] == s.recStats[id] + [recMs];
    assert t.cleanStats[id] == SamplesOf(s.cleanStats, id) + [cleanMs];
    assert t.wcStats[id] == SamplesOf(s.wcStats, id) + [countMs];
    assert t.serStats == s.serStats;
  }

  lemma IntakeAppends(s: ServerState, id: ClientId, chunk: string)
    ensures Appended(s, AfterIntake(s, id, chunk), id, 0, 0)
  {
    var t := AfterIntake(s, id, chunk);
    assert SamplesOf(t.recStats, id) == SamplesOf(s.recStats, id);
    assert t.cleanStats == s.cleanStats && t.wcStats == s.wcStats && t.serStats == s.serStats;
  }

  lemma SerializeAppends(s: ServerState, id: ClientId, serMs: real)
    requires id in s.results
    ensures Appended(s, AfterSerialize(s, id, serMs), id, 0, 1)
  {
    var t := AfterSerialize(s, id, serMs);
    assert t.recStats == s.recStats && t.cleanStats == s.cleanStats && t.wcStats == s.wcStats;
    assert t.serStats[id] == SamplesOf(s.serStats, id) + [serMs];
  }

  /**
   * Each completed document appends exactly one receive, one clean and one count
   * sample to the client's lists, and in multi-threaded mode one serialisation sample;
   * a chunk without the separator appends none.
   */
  lemma ReceiveSamples(threadCount: int, s: ServerState, id: ClientId, chunk: string, recEnd: int,
                       table: map<string, int>, cleanMs: real, countMs: real, serMs: real)
    requires Consistent(threadCount, s)
    requires Wire.SEPARATOR in chunk ==> id in s.recStart
    ensures var done := if Wire.SEPARATOR in chunk then 1 else 0;
      Appended(s, AfterReceive(s, threadCount, id, chunk, recEnd, table, cleanMs, countMs, serMs), id,
               done, if threadCount > 1 then done else 0)
  {
    var s1 := AfterIntake(s, id, chunk);
    IntakeAppends(s, id, chunk);
    if Wire.SEPARATOR in chunk {
      var f := Framing.Extract(BufferOf(s.buffer, id), chunk);
      var recMs := ElapsedMs(s.recStart[id], recEnd);
      var s2 := AfterDocument(s1, threadCount, id, f.buffer, recMs, table, cleanMs, countMs);
      DocumentAppends(threadCount, s1, id, f.buffer, recMs, table, cleanMs, countMs);
      AppendedTransitive(s, s1, s2, id, 0, 0, 1, 0);
      if threadCount > 1 {
        var s3 := AfterSerialize(s2, id, serMs);
        SerializeAppends(s2, id, serMs);
        AppendedTransitive(s, s2, s3, id, 1, 0, 0, 1);
      }
    }
  }

  /**
   * The lane map in multi-threaded mode: a client completing a document has a lane in
   * [0, threadCount); it keeps the lane it had, and a client without one gets the lane
   * under the cursor, which then moves on by one modulo threadCount. A chunk without
   * the separator, and single-threaded mode, leave lanes and cursor alone.
   */
  lemma ReceiveLanes(threadCount: int, s: ServerState, id: ClientId, chunk: string, recEnd: int,
                     table: map<string, int>, cleanMs: real, countMs: real, serMs: real)
    requires Consistent(threadCount, s)
    requires Wire.SEPARATOR in chunk ==> id in s.recStart
    ensures var r := AfterReceive(s, threadCount, id, chunk, recEnd, table, cleanMs, countMs, serMs);
      && (threadCount <= 1 || Wire.SEPARATOR !in chunk ==> r.lanes == s.lanes && r.next == s.next)
      && (threadCount > 1 && Wire.SEPARATOR in chunk ==>
            && id in r.lanes && r.lanes[id] < threadCount
            && (id in s.lanes ==> r.lanes == s.lanes && r.next == s.next)
            && (id !in s.lanes ==> r.lanes == s.lanes[id := s.next] && r.next == (s.next + 1) % threadCount))
  {
    if threadCount > 1 && Wire.SEPARATOR in chunk {
      Lanes.AssignKeeps(s.lanes, s.next, threadCount, id);
    }
  }

  /**
   * Where the table ends up: in single-threaded mode the counted table waits for the
   * main loop's serialisation; in multi-threaded mode the lane has already serialised
   * and removed it. A chunk without the separator leaves the client's table as it was.
   */
  lemma ReceiveTable(threadCount: int, s: ServerState, id: ClientId, chunk: string, recEnd: int,
                     table: map<string, int>, cleanMs: real, countMs: real, serMs: real)
    requires Consistent(threadCount, s)
    requires Wire.SEPARATOR in chunk ==> id in s.recStart
    ensures var r := AfterReceive(s, threadCount, id, chunk, recEnd, table, cleanMs, countMs, serMs);
      && (Wire.SEPARATOR !in chunk ==> id in r.results && r.results[id] == TableOf(s.results, id))
      && (Wire.SEPARATOR in chunk && threadCount <= 1 ==> id in r.results && r.results[id] == table)
      && (Wire.SEPARATOR in chunk && threadCount > 1 ==> id !in r.results)
  {
  }

  /** The value of a map at `c`, or None while it has no entry for `c`. */
  function Lookup<V>(m: map<ClientId, V>, c: ClientId): Option<V> {
    if c in m then Some(m[c]) else None
  }

  /** Everything the server keeps about one client. */
  datatype ClientView = ClientView(
    buffer: Option<string>, table: Option<map<string, int>>,
    rec: Option<seq<real>>, clean: Option<seq<real>>, wc: Option<seq<real>>, ser: Option<seq<real>>,
    start: Option<int>, lane: Option<nat>)

  function ViewOf(s: ServerState, c: ClientId): ClientView {
    ClientView(Lookup(s.buffer, c), Lookup(s.results, c),
               Lookup(s.recStats, c), Lookup(s.cleanStats, c), Lookup(s.wcStats, c), Lookup(s.serStats, c),
               Lookup(s.recStart, c), Lookup(s.lanes, c))
  }

  /** receiveData for one client leaves every other client's buffer, table, samples, start time and lane alone. */
  lemma ReceiveIsolatesClients(threadCount: int, s: ServerState, id: ClientId, chunk: string, recEnd: int,
                               table: map<string, int>, cleanMs: real, countMs: real, serMs: real, other: ClientId)
    requires Consistent(threadCount, s)
    requires Wire.SEPARATOR in chunk ==> id in s.recStart
    requires other != id
    ensures ViewOf(AfterReceive(s, threadCount, id, chunk, recEnd, table, cleanMs, countMs, serMs), other) == ViewOf(s, other)
  {
    var s1 := AfterIntake(s, id, chunk);
    assert ViewOf(s1, other) == ViewOf(s, other);
    if Wire.SEPARATOR in chunk {
      var f := Framing.Extract(BufferOf(s.buffer, id), chunk);
      var recMs := ElapsedMs(s.recStart[id], recEnd);
      var s2 := AfterDocument(s1, threadCount, id, f.buffer, recMs, table, cleanMs, countMs);
      DocumentUntouched(threadCount, s1, id, f.buffer, recMs, table, cleanMs, countMs, other);
      if threadCount > 1 {
        assert ViewOf(AfterSerialize(s2, id, serMs), other) == ViewOf(s2, other);
      }
    }
  }

  lemma DocumentUntouched(threadCount: int, s: ServerState, id: ClientId, rest: string, recMs: real,
                          table: map<string, int>, cleanMs: real, countMs: real, other: ClientId)
    requires id in s.recStats && (threadCount > 1 ==> s.next < threadCount) && other != id
    ensures ViewOf(AfterDocument(s, threadCount, id, rest, recMs, table, cleanMs, countMs), other) == ViewOf(s, other)
  {
    var s1 := AfterTake(s, id, rest, recMs);
    assert ViewOf(s1, other) == ViewOf(s, other);
    var s2 := if threadCount > 1 then AfterLane(s1, threadCount, id) else s1;
    if threadCount > 1 {
      var (lanes, next) := Lanes.Assign(s1.lanes, s1.next, threadCount, id);
      assert s2.lanes == lanes;
      assert ViewOf(s2, other) == ViewOf(s1, other);
    }
    assert ViewOf(AfterWork(s2, id, table, cleanMs, countMs), other) == ViewOf(s2, other);
  }

  /**
   * A table is read once: serialising removes it, so serialising again changes
   * nothing (and, by SerializeResultForClient, returns the empty text).
   */
  lemma SerializeOnce(s: ServerState, id: ClientId, serMs1: real, serMs2: real)
    ensures id !in AfterSerialize(s, id, serMs1).results
    ensures AfterSerialize(AfterSerialize(s, id, serMs1), id, serMs2) == AfterSerialize(s, id, serMs1)
    ensures forall c :: c != id ==> (c in AfterSerialize(s, id, serMs1).results <==> c in s.results)
  {
  }

  class WoCoServer {
    var buffer: map<ClientId, string>
    var results: map<ClientId, map<string, int>>
    var serverRecStats: map<ClientId, seq<real>>
    var serverCleanStats: map<ClientId, seq<real>>
    var serverWcStats: map<ClientId, seq<real>>
    var serverSerStats: map<ClientId, seq<real>>
    var recStatsStart: map<ClientId, int>
    const threadCount: int
    var clientThreadMap: map<ClientId, nat>
    var nextThreadToAllocate: nat

    /** The value of the server's maps and lane cursor. */
    function State(): ServerState
      reads this
    {
      ServerState(buffer, results, serverRecStats, serverCleanStats, serverWcStats, serverSerStats,
                  recStatsStart, clientThreadMap, nextThreadToAllocate)
    }

    ghost predicate Valid()
      reads this
    {
      Consistent(threadCount, State())
    }

    /** A new server: no clients, and the lane cursor at 0. */
    constructor (thCount: int)
      ensures Valid()
      ensures threadCount == thCount
      ensures State() == Initial()
    {
      buffer := map[];
      results := map[];
      serverRecStats := map[];
      serverCleanStats := map[];
      serverWcStats := map[];
      serverSerStats := map[];
      recStatsStart := map[];
      threadCount := thCount;
      clientThreadMap := map[];
      nextThreadToAllocate := 0;
    }

    /** Forgets every client and every sample and puts the lane cursor back at 0. */
    method ResetServer() returns (r: string)
      requires Valid()
      modifies this
      ensures Valid()
      ensures r == "Server reset"
      ensures State() == Initial()
    {
      assert LanesAssigned(threadCount, State());
      buffer := map[];
      results := map[];
      serverRecStats := map[];
      serverCleanStats := map[];
      serverWcStats := map[];
      serverSerStats := map[];
      recStatsStart := map[];
      if threadCount > 1 {
        clientThreadMap := map[];
        nextThreadToAllocate := 0;
      }
      r := "Server reset";
      assert State() == Initial();
      InitialConsistent(threadCount);
    }

    /** The reactor loop's note of when the first chunk of a client's document arrived. */
    method NoteReadStart(clientId: ClientId, now: int)
      requires Valid()
      modifies this
      ensures Valid()
      ensures State() == AfterReadStart(old(State()), clientId, now)
    {
      if clientId !in recStatsStart {
        recStatsStart := recStatsStart[clientId := now];
      }
    }

    /**
     * serializeResultForClient: when the client has a word table, renders it as
     * `word,count,` per entry (in the order the map visits its keys) and a newline,
     * and removes the table. Without a table, returns the empty text.
     */
    method SerializeResultForClient(clientId: ClientId, serMs: real) returns (s: string, ghost order: seq<string>)
      requires Valid()
      modifies this
      ensures Valid()
      ensures State() == AfterSerialize(old(State()), clientId, serMs)
      ensures old(clientId in results) ==>
        IsEnumeration(order, old(results[clientId]).Keys) && s == Wire.Render(old(results[clientId]), order) + "\n"
      ensures old(clientId !in results) ==> s == ""
    {
      order := [];
      if clientId in results {
        SerializeConsistent(threadCount, State(), clientId, serMs);
        var hm := results[clientId];
        s, order := Wire.SerializeTable(hm);
        results := results - {clientId};
        // the client's first serialisation creates its list
        serverSerStats := serverSerStats[clientId := SamplesOf(serverSerStats, clientId) + [serMs]];
      } else {
        s := "";
      }
    }

    /**
     * receiveData: appends the chunk to the client's buffer. When the chunk holds the
     * separator, the text before the first separator of the buffer is a document,
     * which is cleaned (in cleaning mode) and counted into the client's table; in
     * multi-threaded mode the lane's serialisation of the table is the reply.
     * `anomaly` marks the case the Java code reports as unexpected: text left in the
     * buffer after the first separator.
     */
    method ReceiveData(clientId: ClientId, dataChunk: string, cMode: bool,
                       recEnd: int, cleanMs: real, countMs: real, serMs: real)
      returns (hasResult: bool, reply: Option<string>, ghost counted: map<string, int>, ghost order: seq<string>,
               ghost anomaly: bool)
      requires Valid()
      requires Wire.SEPARATOR in dataChunk ==> clientId in recStatsStart
      modifies this
      ensures Valid()
      ensures hasResult <==> Wire.SEPARATOR in dataChunk
      ensures hasResult ==>
        && WordCount.Counted(TableOf(old(results), clientId), counted,
             DocumentWords(Framing.Extract(BufferOf(old(buffer), clientId), dataChunk).doc, cMode))
        && WordTable(counted) && counted != map[]
      ensures State() == AfterReceive(old(State()), threadCount, clientId, dataChunk, recEnd, counted, cleanMs, countMs, serMs)
      ensures hasResult && threadCount > 1 ==>
        IsEnumeration(order, counted.Keys) && reply == Some(Wire.Render(counted, order) + "\n")
      ensures !(hasResult && threadCount > 1) ==> reply == None
      ensures anomaly <==> hasResult && Framing.Extract(BufferOf(old(buffer), clientId), dataChunk).buffer != ""
    {
      reply := None;
      counted := map[];
      order := [];
      anomaly := false;
      ghost var s0 := State();
      IntakeConsistent(threadCount, s0, clientId, dataChunk);
      Intake(clientId, dataChunk);
      if Wire.SEPARATOR !in dataChunk {
        hasResult := false;
        return;
      }
      hasResult := true;
      var recMs := ElapsedMs(recStatsStart[clientId], recEnd);
      assert recMs == ElapsedMs(s0.recStart[clientId], recEnd);
      ghost var f := Framing.Extract(BufferOf(s0.buffer, clientId), dataChunk);
      var line, rest, table := CompleteDocument(clientId, cMode, recMs, cleanMs, countMs);
      Framing.FirstSeparatorUnique(line, rest, f.doc, f.buffer);
      // more than one document in the buffer: the Java code prints it and waits for stdin
      anomaly := rest != "";
      counted := table;
      if threadCount > 1 {
        var s;
        s, order := SerializeResultForClient(clientId, serMs);
        reply := Some(s);
      }
    }

    /**
     * The part of receiveData that runs once a document is complete: the document is
     * cut from the buffer, the client gets a lane in multi-threaded mode, and the
     * document is counted into the client's table.
     */
    method CompleteDocument(clientId: ClientId, cMode: bool, recMs: real, cleanMs: real, countMs: real)
      returns (line: string, rest: string, table: map<string, int>)
      requires Valid()
      requires clientId in buffer && clientId in serverRecStats && clientId in results
      requires Wire.SEPARATOR in buffer[clientId]
      modifies this
      ensures Valid()
      ensures old(buffer[clientId]) == line + [Wire.SEPARATOR] + rest && Wire.SEPARATOR !in line
      ensures WordCount.Counted(old(results[clientId]), table, DocumentWords(line, cMode))
      ensures WordTable(table) && table != map[]
      ensures State() == AfterDocument(old(State()), threadCount, clientId, rest, recMs, table, cleanMs, countMs)
      ensures clientId in results && results[clientId] == table
    {
      ghost var s1 := State();
      line, rest := TakeDocument(clientId, recMs);
      var wc := results[clientId];
      if threadCount > 1 {
        AssignLane(clientId);
      }
      table := ProcessDocument(line, wc, cMode);
      RecordWork(clientId, table, cleanMs, countMs);
      assert State() == AfterDocument(s1, threadCount, clientId, rest, recMs, table, cleanMs, countMs);
      DocumentConsistent(threadCount, s1, clientId, rest, recMs, table, cleanMs, countMs);
    }

    /** First contact creates the client's receive list, table and buffer; the chunk is appended to the buffer. */
    method Intake(clientId: ClientId, dataChunk: string)
      modifies this
      ensures State() == AfterIntake(old(State()), clientId, dataChunk)
    {
      serverRecStats := serverRecStats[clientId := SamplesOf(serverRecStats, clientId)];
      results := results[clientId := TableOf(results, clientId)];
      buffer := buffer[clientId := BufferOf(buffer, clientId) + dataChunk];
    }

    /**
     * Records the receive sample and cuts the buffer at its first separator into the
     * document and the rest, which the buffer keeps.
     */
    method TakeDocument(clientId: ClientId, recMs: real) returns (line: string, rest: string)
      requires clientId in buffer && clientId in serverRecStats && Wire.SEPARATOR in buffer[clientId]
      modifies this
      ensures old(buffer[clientId]) == line + [Wire.SEPARATOR] + rest && Wire.SEPARATOR !in line
      ensures State() == AfterTake(old(State()), clientId, rest, recMs)
      ensures results == old(results)
    {
      serverRecStats := serverRecStats[clientId := serverRecStats[clientId] + [recMs]];
      var bufData := buffer[clientId];
      var indexNL := JavaText.IndexOf(bufData, Wire.SEPARATOR);
      line := bufData[..indexNL];
      rest := bufData[indexNL + 1..];
      assert bufData == line + [Wire.SEPARATOR] + rest;
      if |bufData| > indexNL + 1 {
        // several documents arrived at once: the rest stays in the buffer
        buffer := buffer[clientId := rest];
      } else {
        recStatsStart := recStatsStart - {clientId};
        buffer := buffer[clientId := ""];
      }
    }

    /** A client without a lane gets the lane under the cursor, and the cursor moves on. */
    method AssignLane(clientId: ClientId)
      requires nextThreadToAllocate < threadCount
      modifies this
      ensures State() == AfterLane(old(State()), threadCount, clientId)
      ensures results == old(results)
    {
      if clientId !in clientThreadMap {
        clientThreadMap := clientThreadMap[clientId := nextThreadToAllocate];
        if nextThreadToAllocate + 1 >= threadCount {
          nextThreadToAllocate := 0;
        } else {
          nextThreadToAllocate := nextThreadToAllocate + 1;
        }
      }
    }

    /** Stores the counted table with one clean and one count sample; a client's first document creates those lists. */
    method RecordWork(clientId: ClientId, table: map<string, int>, cleanMs: real, countMs: real)
      modifies this
      ensures State() == AfterWork(old(State()), clientId, table, cleanMs, countMs)
      ensures results == old(results)[clientId := table]
    {
      serverCleanStats := serverCleanStats[clientId := SamplesOf(serverCleanStats, clientId) + [cleanMs]];
      serverWcStats := serverWcStats[clientId := SamplesOf(serverWcStats, clientId) + [countMs]];
      results := results[clientId := table];
    }
  }
}
