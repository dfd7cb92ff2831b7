/** src/image2lines.ts: lines of text from an image annotation. Fragments
    are built per word from pixel coordinates, merged per paragraph row,
    filtered, bucketed to multiples of 4 in y, and each bucket becomes one
    line whose words are ordered by x. */
module Image2Lines {
  import opened Results
  import opened Seqs
  import opened Vision
  import opened Fragments
  import opened Merge

  /** Anchor of a fragment whose word has no box, or no coordinate. */
  const Sentinel: int := 99999999

  function Coord(v: Vertex, a: Axis): Option<int>
  {
    if a == X then v.x else v.y
  }

  /** The running minimum the `forEach` of `getPositions` leaves after
      visiting `vs`, starting from the sentinel: the least present coordinate,
      or the sentinel when none is smaller. */
  function MinCoord(vs: seq<Vertex>, a: Axis): (m: int)
    ensures m <= Sentinel
    ensures forall i :: 0 <= i < |vs| && Coord(vs[i], a).Some? ==> m <= Coord(vs[i], a).value
    ensures m == Sentinel || exists i :: 0 <= i < |vs| && Coord(vs[i], a) == Some(m)
    decreases |vs|
  {
    if vs == [] then Sentinel
    else
      var init := vs[..|vs| - 1];
      var m := MinCoord(init, a);
      var c := Coord(vs[|vs| - 1], a);
      assert forall i :: 0 <= i < |init| ==> vs[i] == init[i];
      if c.Some? && c.value < m then c.value else m
  }

  /** `getPositions`: the minimum x and the minimum y over the vertices that
      carry them, in pixels, or the sentinel for both when the list is absent. */
  method GetPositions(vertices: Option<seq<Vertex>>) returns (x: int, y: int)
    ensures vertices.None? ==> x == Sentinel && y == Sentinel
    ensures vertices.Some? ==> x == MinCoord(vertices.value, X) && y == MinCoord(vertices.value, Y)
  {
    x := Sentinel;
    y := Sentinel;
    if vertices.None? {
      return;
    }
    var vs := vertices.value;
    var i := 0;
    while i < |vs|
      invariant 0 <= i <= |vs|
      invariant x == MinCoord(vs[..i], X) && y == MinCoord(vs[..i], Y)
    {
      var v := vs[i];
      if v.x.Some? && v.x.value < x {
        x := v.x.value;
      }
      if v.y.Some? && v.y.value < y {
        y := v.y.value;
      }
      assert vs[..i + 1][..i] == vs[..i];
      i := i + 1;
    }
    assert vs[..|vs|] == vs;
  }

  /** The value `getPositions` returns, for use by the pure stages: the
      method above is the loop of the source, this function its
      specification, and the method's ensures ties the two. */
  function Positions(vertices: Option<seq<Vertex>>): (int, int)
  {
    match vertices
    case None => (Sentinel, Sentinel)
    case Some(vs) => (MinCoord(vs, X), MinCoord(vs, Y))
  }

  /** `filterSymbolsJP`: one fragment per word. */
  function FilterSymbolsJP(symbols: seq<Symbol>, vertices: Option<seq<Vertex>>): SymbolLine
  {
    var positions := Positions(vertices);
    SymbolLine(positions.0, positions.1, JoinedText(symbols))
  }

  /** A word with present, non-empty symbols: the ones that yield a fragment. */
  predicate Productive(w: Word)
  {
    w.symbols.Some? && |w.symbols.value| > 0
  }

  /** One word of `getInlineWords`: no language filter is applied; the
      fragment is anchored where `getPositions` puts the word's box. */
  function WordLine(w: Word): (r: Option<SymbolLine>)
    ensures r.Some? <==> Productive(w)
    ensures r.Some? ==> (r.value.x, r.value.y) == Positions(PixelVertices(w))
    ensures r.Some? ==> r.value.word == JoinedText(w.symbols.value)
  {
    match w.symbols
    case None => None
    case Some(symbols) =>
      if |symbols| == 0 then None else Some(FilterSymbolsJP(symbols, PixelVertices(w)))
  }

  /** `getInlineWords`: words are not filtered by language, and a word with
      absent or empty symbols contributes nothing; it throws exactly when the
      `symbolsJoin` of one of its paragraphs does, and otherwise holds the
      merged rows of its paragraphs in order. */
  function GetInlineWords(block: Block): (r: Result<Option<seq<SymbolLine>>>)
    ensures r == Ok(None) <==>
              block.paragraphs.None?
              || forall p, w :: p in block.paragraphs.value && p.words.Some? && w in p.words.value ==> !Productive(w)
    ensures block.paragraphs.Some? ==>
              (r.TypeError? <==> exists p :: p in block.paragraphs.value && Throws(WordLine, p))
    ensures block.paragraphs.Some? && r.Ok? && r.value.Some? ==>
              r.value.value == Flatten(OkValues(ParagraphResults(WordLine, block.paragraphs.value)))
  {
    InlineWords(WordLine, block)
  }

  /** The filter of `getSymbols`, as its chain of early returns. */
  predicate Keep(f: SymbolLine)
  {
    if 64 <= f.y <= 67 && f.x >= 800 then false
    else if 103 <= f.y <= 118 then false
    else if f.y < 120 && f.word == "·" then false
    else true
  }

  /** `getSymbols`: all fragments of all pages, without the header corner at
      y 64..67 right of x 800, without the band y 103..118, and without a lone
      middle dot above y 120. */
  function GetSymbols(values: Option<seq<seq<SymbolLine>>>): (r: seq<SymbolLine>)
    ensures values.None? ==> r == []
    ensures forall f :: f in r ==>
              && !(64 <= f.y <= 67 && f.x >= 800)
              && !(103 <= f.y <= 118)
              && !(f.y < 120 && f.word == "·")
    ensures values.Some? ==> IsSubseq(r, Flatten(values.value))
    ensures values.Some? ==>
              forall f :: multiset(r)[f] == if Keep(f) then multiset(Flatten(values.value))[f] else 0
  {
    match values
    case None => []
    case Some(vs) =>
      var all := Flatten(vs);
      var r := Filter(Keep, all);
      FilterSubseq(Keep, all);
      assert forall f :: multiset(r)[f] == if Keep(f) then multiset(all)[f] else 0 by {
        forall f ensures multiset(r)[f] == if Keep(f) then multiset(all)[f] else 0 {
          FilterCount(Keep, all, f);
        }
      }
      r
  }

  /** `Math.floor(Number(key) / 4) * 4`: the row bucket of a y. */
  function Bucket(k: int): (r: int)
    ensures r % 4 == 0
    ensures r <= k < r + 4
  {
    (k / 4) * 4
  }

  lemma BucketMonotone(a: int, b: int)
    requires a <= b
    ensures Bucket(a) <= Bucket(b)
  {
    var qa, qb := Bucket(a) / 4, Bucket(b) / 4;
    assert Bucket(a) == 4 * qa && Bucket(b) == 4 * qb;
  }

  lemma BucketIdempotent(k: int)
    ensures Bucket(Bucket(k)) == Bucket(k)
  {
    var r := Bucket(k);
    assert r == 4 * (r / 4);
  }

  lemma BucketLaws()
    ensures Monotone(Bucket) && Idempotent(Bucket)
  {
    forall a, b | a <= b ensures Bucket(a) <= Bucket(b) {
      BucketMonotone(a, b);
    }
    forall a ensures Bucket(Bucket(a)) == Bucket(a) {
      BucketIdempotent(a);
    }
  }

  /** `fixedOffset` of `start`: each y-group moved to the bucket of its key,
      groups concatenated in ascending key order. */
  function FixedOffset(s: seq<SymbolLine>): seq<SymbolLine>
  {
    Rekey(Bucket, s)
  }

  /** The re-bucketed fragments: as many as the input, each one of the input
      with its y moved down to a multiple of 4 at most 3 below it, ordered by
      bucket. */
  lemma FixedOffsetSpec(s: seq<SymbolLine>)
    ensures |FixedOffset(s)| == |s|
    ensures SortedByY(FixedOffset(s))
    ensures forall f :: f in FixedOffset(s) ==> f.y % 4 == 0
    ensures forall f :: f in FixedOffset(s) <==>
              exists g :: g in s && f == g.(y := Bucket(g.y))
  {
    BucketLaws();
    RekeySpec(Bucket, s);
  }

  /** Bucketing twice is bucketing once. */
  lemma FixedOffsetIdempotent(s: seq<SymbolLine>)
    ensures FixedOffset(FixedOffset(s)) == FixedOffset(s)
  {
    BucketLaws();
    RekeyIdempotent(Bucket, s);
  }

  /** `response` of `start`: one line per y of the re-bucketed fragments, the
      fragments of a line joined in ascending x. */
  function Lines(s: seq<SymbolLine>): seq<string>
  {
    var gs := GroupByY(FixedOffset(s));
    seq(|gs|, i requires 0 <= i < |gs| => Words(SortByX(gs[i])))
  }

  /** One line per distinct bucket, in ascending order; line `i` is the text
      of the fragments of its bucket, taken in ascending original y and input
      order, then sorted by x. */
  lemma LinesSpec(s: seq<SymbolLine>)
    ensures var ks := Keys(FixedOffset(s));
            && |Lines(s)| == |ks|
            && StrictlyIncreasing(ks)
            && (forall k :: k in ks <==> exists i :: 0 <= i < |s| && Bucket(s[i].y) == k)
            && (forall i :: 0 <= i < |ks| ==>
                  Lines(s)[i] == Words(SortByX(MapY(Bucket, Preimage(Bucket, Flatten(GroupByY(s)), ks[i])))))
  {
    var ks := Keys(FixedOffset(s));
    forall k ensures k in ks <==> exists i :: 0 <= i < |s| && Bucket(s[i].y) == k {
      RekeyKeys(Bucket, s, k);
    }
    forall i | 0 <= i < |ks|
      ensures Lines(s)[i] == Words(SortByX(MapY(Bucket, Preimage(Bucket, Flatten(GroupByY(s)), ks[i]))))
    {
      RekeyRow(Bucket, s, ks[i]);
    }
  }

  /** A worked example, in steps: three fragments at three distinct y
      values form three rows before bucketing. */
  lemma ExampleGroups()
    ensures GroupByY([SymbolLine(50, 29, "B"), SymbolLine(10, 30, "A"), SymbolLine(5, 64, "C")])
            == [[SymbolLine(50, 29, "B")], [SymbolLine(10, 30, "A")], [SymbolLine(5, 64, "C")]]
  {
    var s := [SymbolLine(50, 29, "B"), SymbolLine(10, 30, "A"), SymbolLine(5, 64, "C")];
    assert Keys(s) == [29, 30, 64];
    var gs := GroupByY(s);
    assert gs[0] == FilterY(s, 29) == [s[0]];
    assert gs[1] == FilterY(s, 30) == [s[1]];
    assert gs[2] == FilterY(s, 64) == [s[2]];
  }

  /** Bucketing moves y 29 and y 30 to 28 and leaves y 64 in place. */
  lemma ExampleFixed()
    ensures FixedOffset([SymbolLine(50, 29, "B"), SymbolLine(10, 30, "A"), SymbolLine(5, 64, "C")])
            == [SymbolLine(50, 28, "B"), SymbolLine(10, 28, "A"), SymbolLine(5, 64, "C")]
  {
    var s := [SymbolLine(50, 29, "B"), SymbolLine(10, 30, "A"), SymbolLine(5, 64, "C")];
    ExampleGroups();
    assert Keys(s) == [29, 30, 64];
    var ws := RekeyedGroups(Bucket, s);
    assert ws[0] == WithY([s[0]], Bucket(29)) == [SymbolLine(50, 28, "B")];
    assert ws[1] == WithY([s[1]], Bucket(30)) == [SymbolLine(10, 28, "A")];
    assert ws[2] == WithY([s[2]], Bucket(64)) == [SymbolLine(5, 64, "C")];
    assert Flatten(ws) == ws[0] + Flatten(ws[1..]);
    assert Flatten(ws[1..]) == ws[1] + Flatten(ws[2..]);
    assert Flatten(ws[2..]) == ws[2] + Flatten(ws[3..]);
  }

  /** After bucketing, the two fragments at 28 share a row. */
  lemma ExampleRows()
    ensures GroupByY([SymbolLine(50, 28, "B"), SymbolLine(10, 28, "A"), SymbolLine(5, 64, "C")])
            == [[SymbolLine(50, 28, "B"), SymbolLine(10, 28, "A")], [SymbolLine(5, 64, "C")]]
  {
    var t := [SymbolLine(50, 28, "B"), SymbolLine(10, 28, "A"), SymbolLine(5, 64, "C")];
    assert Keys(t) == [28, 64];
    var hs := GroupByY(t);
    assert hs[0] == FilterY(t, 28) == [t[0], t[1]];
    assert hs[1] == FilterY(t, 64) == [t[2]];
  }

  /** Within the row, "A" at x 10 comes before "B" at x 50. */
  lemma ExampleSort()
    ensures SortByX([SymbolLine(50, 28, "B"), SymbolLine(10, 28, "A")]) == [SymbolLine(10, 28, "A"), SymbolLine(50, 28, "B")]
    ensures SortByX([SymbolLine(5, 64, "C")]) == [SymbolLine(5, 64, "C")]
  {
    var b, a := SymbolLine(50, 28, "B"), SymbolLine(10, 28, "A");
    assert [b, a][1..] == [a];
    assert [a][1..] == [];
    assert SortByX([a]) == InsertByX(a, SortByX([])) == [a];
    assert SortByX([b, a]) == InsertByX(b, [a]);
    assert [a][1..] == [];
    assert InsertByX(b, [a]) == [a] + InsertByX(b, []);
    var c := SymbolLine(5, 64, "C");
    assert [c][1..] == [];
    assert SortByX([c]) == InsertByX(c, SortByX([]));
  }

  /** Two fragments 1 px apart in y share the bucket 28 and are joined by
      x; the fragment at y 64 opens a line of its own. */
  lemma LinesExample(s: seq<SymbolLine>)
    requires s == [SymbolLine(50, 29, "B"), SymbolLine(10, 30, "A"), SymbolLine(5, 64, "C")]
    ensures Lines(s) == ["AB", "C"]
  {
    ExampleFixed();
    ExampleRows();
    ExampleSort();
    var hs := GroupByY(FixedOffset(s));
    assert hs == [[SymbolLine(50, 28, "B"), SymbolLine(10, 28, "A")], [SymbolLine(5, 64, "C")]];
    LinesOfTwoRows(s);
    ExampleWords();
  }

  /** Two rows give two lines, each its row's words in ascending x. */
  lemma LinesOfTwoRows(s: seq<SymbolLine>)
    requires |GroupByY(FixedOffset(s))| == 2
    ensures var gs := GroupByY(FixedOffset(s));
            Lines(s) == [Words(SortByX(gs[0])), Words(SortByX(gs[1]))]
  {
  }

  lemma ExampleWords()
    ensures Words([SymbolLine(10, 28, "A"), SymbolLine(50, 28, "B")]) == "AB"
    ensures Words([SymbolLine(5, 64, "C")]) == "C"
  {
    var a, b, c := SymbolLine(10, 28, "A"), SymbolLine(50, 28, "B"), SymbolLine(5, 64, "C");
    assert [a, b][1..] == [b];
    assert [b][1..] == [];
    assert [c][1..] == [];
  }

  /** Ties in x keep their order on a line. */
  lemma LineTies(s: seq<SymbolLine>, i: int, v: int)
    requires 0 <= i < |Keys(FixedOffset(s))|
    ensures var g := FilterY(FixedOffset(s), Keys(FixedOffset(s))[i]);
            FilterXEq(SortByX(g), v) == FilterXEq(g, v)
  {
    SortByXStable(FilterY(FixedOffset(s), Keys(FixedOffset(s))[i]), v);
  }

  /** Nothing to filter leaves no fragment. */
  lemma GetSymbolsNil(values: Option<seq<seq<SymbolLine>>>)
    requires values.Some? ==> Flatten(values.value) == []
    ensures GetSymbols(values) == []
  {
    var r := GetSymbols(values);
    assert multiset(r) == multiset{};
  }

  /** `start`: the lines of an image, or the TypeError one of its words throws. */
  function Start(pages: Option<seq<Page>>): (r: Result<seq<string>>)
    ensures r.TypeError? <==> Values(WordLine, pages).TypeError?
    ensures r.Ok? ==> r.value == Lines(GetSymbols(Values(WordLine, pages).value))
  {
    match Values(WordLine, pages)
    case TypeError => TypeError
    case Ok(values) => Ok(Lines(GetSymbols(values)))
  }

  /** A page where no word has symbols gives no line and no TypeError. */
  lemma StartBarren(pages: Option<seq<Page>>)
    requires Barren(WordLine, pages)
    ensures Start(pages) == Ok([])
  {
    BarrenValues(WordLine, pages);
    GetSymbolsNil(Values(WordLine, pages).value);
    assert Lines([]) == [] by {
      FixedOffsetSpec([]);
      assert FixedOffset([]) == [];
    }
  }
}
