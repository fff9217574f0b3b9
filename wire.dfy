/**
 * The text exchanged between client and server: a document ends with the separator
 * '$', and a word-count reply is `word,count,` once per table entry followed by a
 * newline. A Java HashMap visits its keys in an order the program does not control,
 * so the reply is specified over some enumeration of the keys.
 */
module Wire {
  import opened JavaText
  import opened Collections

  /** The character that ends a document on the wire. */
  const SEPARATOR: char := '$'

  /** One entry of a reply. */
  function Entry(k: string, c: int): string {
    k + "," + ShowInt(c) + ","
  }

  /** The entries of `t` for the keys in `order`, in that order, without the final newline. */
  function Render(t: map<string, int>, order: seq<string>): string
    requires forall i :: 0 <= i < |order| ==> order[i] in t
  {
    if order == [] then "" else Entry(order[0], t[order[0]]) + Render(t, order[1..])
  }

  lemma {:induction false} RenderSnoc(t: map<string, int>, order: seq<string>, k: string)
    requires forall i :: 0 <= i < |order| ==> order[i] in t
    requires k in t
    ensures Render(t, order + [k]) == Render(t, order) + Entry(k, t[k])
    decreases |order|
  {
    if order == [] {
      assert order + [k] == [k];
      assert [k][1..] == [];
    } else {
      assert (order + [k])[1..] == order[1..] + [k];
      RenderSnoc(t, order[1..], k);
    }
  }

  /** The comma-separated fields of a rendered table: each key followed by its count. */
  function Fields(t: map<string, int>, order: seq<string>): seq<string>
    requires forall i :: 0 <= i < |order| ==> order[i] in t
  {
    if order == [] then [] else [order[0], ShowInt(t[order[0]])] + Fields(t, order[1..])
  }

  lemma {:induction false} FieldsShape(t: map<string, int>, order: seq<string>)
    requires forall i :: 0 <= i < |order| ==> order[i] in t
    ensures |Fields(t, order)| == 2 * |order|
    ensures order != [] ==> Fields(t, order)[2 * |order| - 1] != ""
    decreases |order|
  {
    if order != [] {
      FieldsShape(t, order[1..]);
    }
  }

  /**
   * Cutting a rendered table at every comma gives back its fields, plus the empty
   * piece after the final comma, provided no key contains a comma.
   */
  lemma {:induction false} RenderPieces(t: map<string, int>, order: seq<string>)
    requires forall i :: 0 <= i < |order| ==> order[i] in t && ',' !in order[i]
    ensures Pieces(Render(t, order), ',') == Fields(t, order) + [""]
    decreases |order|
  {
    if order != [] {
      var k := order[0];
      var v := ShowInt(t[k]);
      RenderPieces(t, order[1..]);
      ShowIntAvoids(t[k], ',');
      EntryPieces(k, v, Render(t, order[1..]), Fields(t, order[1..]));
    }
  }

  /** One entry in front of text whose pieces are `f` and a final empty piece. */
  lemma EntryPieces(k: string, v: string, rest: string, f: seq<string>)
    requires ',' !in k && ',' !in v
    requires Pieces(rest, ',') == f + [""]
    ensures Pieces(k + "," + v + "," + rest, ',') == [k, v] + f + [""]
  {
    EntryText(k, v, rest);
    PiecesAfter(k, ',', v + [','] + rest);
    PiecesAfter(v, ',', rest);
    ConsTwo(k, v, f + [""]);
  }

  lemma EntryText(k: string, v: string, rest: string)
    ensures k + "," + v + "," + rest == k + [','] + (v + [','] + rest)
  {
    assert "," == [','];
  }

  lemma ConsTwo<T>(a: T, b: T, f: seq<T>)
    ensures [a] + ([b] + f) == [a, b] + f
  {
  }

  /**
   * Java's split on "," of a non-empty rendered table: exactly its fields, because
   * the only empty piece dropped is the one after the final comma.
   */
  lemma SplitRender(t: map<string, int>, order: seq<string>)
    requires order != []
    requires forall i :: 0 <= i < |order| ==> order[i] in t && ',' !in order[i]
    ensures JavaSplit(Render(t, order), ',') == Fields(t, order)
  {
    RenderPieces(t, order);
    FieldsShape(t, order);
    var s := Render(t, order);
    var p := Pieces(s, ',');
    assert |p| >= 2;
    assert ',' in s;
    var f := Fields(t, order);
    assert p == f + [""];
    assert p[..|p| - 1] == f;
    assert DropTrailingEmpty(p) == DropTrailingEmpty(f);
  }

  /** A character that is not a comma, a digit or '-' and occurs in no key does not occur in the rendering. */
  lemma {:induction false} RenderAvoids(t: map<string, int>, order: seq<string>, c: char)
    requires forall i :: 0 <= i < |order| ==> order[i] in t && c !in order[i]
    requires c != ',' && c != '-' && !IsDigit(c)
    ensures c !in Render(t, order)
    decreases |order|
  {
    if order != [] {
      RenderAvoids(t, order[1..], c);
      ShowIntAvoids(t[order[0]], c);
    }
  }

  /**
   * The loop of serializeResultForClient: appends `key,count,` for every key of the
   * table, in the order the map happens to visit them, then a newline.
   */
  method SerializeTable(hm: map<string, int>) returns (s: string, ghost order: seq<string>)
    ensures IsEnumeration(order, hm.Keys)
    ensures s == Render(hm, order) + "\n"
  {
    var remaining := hm.Keys;
    var sb := "";
    order := [];
    while remaining != {}
      invariant remaining <= hm.Keys
      invariant IsEnumeration(order, hm.Keys - remaining)
      invariant sb == Render(hm, order)
      decreases remaining
    {
      var key :| key in remaining;
      RenderSnoc(hm, order, key);
      sb := sb + Entry(key, hm[key]);
      order := order + [key];
      remaining := remaining - {key};
    }
    s := sb + "\n";
  }
}
