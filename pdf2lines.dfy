/** src/pdf2lines.ts: table rows from the annotation of one PDF page.
    Fragments are built per word from the symbols tagged with the language,
    anchored at normalized coordinates scaled by 1000, merged per paragraph
    row and filtered. The lesson number and the subject are picked out and
    removed, rows from y 120 on are snapped to the nearest multiple of 15,
    and every such row becomes one `|`-separated record built from three
    column bands. Rows above 120 are passed through as plain text. */
module Pdf2Lines {
  import opened Results
  import opened Seqs
  import opened Text
  import opened Vision
  import opened Fragments
  import opened Merge
  import opened Utils

  /** Anchor of a fragment whose word has no box; it is not scaled. */
  const Sentinel: int := 99999999

  /** The language `start` passes to `getInlineWords`. */
  const Language: string := "jp"

  function NCoord(v: NormalizedVertex, a: Axis): Option<real>
  {
    if a == X then v.x else v.y
  }

  /** The running minimum the `forEach` of `getPositions` leaves after
      visiting `vs`, starting from the sentinel. */
  function MinNorm(vs: seq<NormalizedVertex>, a: Axis): (m: real)
    ensures m <= Sentinel as real
    ensures forall i :: 0 <= i < |vs| && NCoord(vs[i], a).Some? ==> m <= NCoord(vs[i], a).value
    ensures m == Sentinel as real || exists i :: 0 <= i < |vs| && NCoord(vs[i], a) == Some(m)
    decreases |vs|
  {
    if vs == [] then Sentinel as real
    else
      var init := vs[..|vs| - 1];
      var m := MinNorm(init, a);
      var c := NCoord(vs[|vs| - 1], a);
      assert forall i :: 0 <= i < |init| ==> vs[i] == init[i];
      if c.Some? && c.value < m then c.value else m
  }

  /** `Math.floor(v * 1000)` */
  function Scaled(v: real): int
  {
    (v * 1000.0).Floor
  }

  /** `getPositions`: the minimum normalized x and y over the vertices that
      carry them, scaled by 1000 and floored; the unscaled sentinel for both
      when the list is absent. */
  method GetPositions(vertices: Option<seq<NormalizedVertex>>) returns (x: int, y: int)
    ensures vertices.None? ==> x == Sentinel && y == Sentinel
    ensures vertices.Some? ==>
              x == Scaled(MinNorm(vertices.value, X)) && y == Scaled(MinNorm(vertices.value, Y))
  {
    var mx: real := Sentinel as real;
    var my: real := Sentinel as real;
    if vertices.None? {
      return Sentinel, Sentinel;
    }
    var vs := vertices.value;
    var i := 0;
    while i < |vs|
      invariant 0 <= i <= |vs|
      invariant mx == MinNorm(vs[..i], X) && my == MinNorm(vs[..i], Y)
    {
      var v := vs[i];
      if v.x.Some? && v.x.value < mx {
        mx := v.x.value;
      }
      if v.y.Some? && v.y.value < my {
        my := v.y.value;
      }
      assert vs[..i + 1][..i] == vs[..i];
      i := i + 1;
    }
    assert vs[..|vs|] == vs;
    x := (mx * 1000.0).Floor;
    y := (my * 1000.0).Floor;
  }

  /** The value `getPositions` returns, for use by the pure stages: the
      method above is the loop of the source, this function its
      specification, and the method's ensures ties the two. */
  function Positions(vertices: Option<seq<NormalizedVertex>>): (int, int)
  {
    match vertices
    case None => (Sentinel, Sentinel)
    case Some(vs) => (Scaled(MinNorm(vs, X)), Scaled(MinNorm(vs, Y)))
  }

  /** The anchor is at or left of (above) every scaled present coordinate,
      and it is one of them unless none lies below the sentinel. */
  lemma PositionsSpec(vs: seq<NormalizedVertex>, a: Axis)
    ensures forall i :: 0 <= i < |vs| && NCoord(vs[i], a).Some? ==>
              Scaled(MinNorm(vs, a)) <= Scaled(NCoord(vs[i], a).value)
    ensures Scaled(MinNorm(vs, a)) == Scaled(Sentinel as real)
            || exists i :: 0 <= i < |vs| && NCoord(vs[i], a).Some? && Scaled(MinNorm(vs, a)) == Scaled(NCoord(vs[i], a).value)
  {
    var m := MinNorm(vs, a);
    forall i | 0 <= i < |vs| && NCoord(vs[i], a).Some? ensures Scaled(m) <= Scaled(NCoord(vs[i], a).value) {
      var c := NCoord(vs[i], a).value;
      assert m * 1000.0 <= c * 1000.0;
    }
  }

  /** A box without vertices keeps the raw sentinel, while a vertex list
      with no coordinates has it scaled. */
  lemma SentinelUnscaled()
    ensures Positions(None) == (99999999, 99999999)
    ensures Positions(Some([])) == (99999999000, 99999999000)
  {
    assert (99999999.0 * 1000.0).Floor == 99999999000;
  }

  /** `filterSymbolsJP`: one fragment per word, anchored at the scaled box. */
  function FilterSymbolsJP(symbols: seq<Symbol>, vertices: Option<seq<NormalizedVertex>>): SymbolLine
  {
    var positions := Positions(vertices);
    SymbolLine(positions.0, positions.1, JoinedText(symbols))
  }

  /** A word with at least one symbol tagged with the language. */
  ghost predicate Yields(code: string, w: Word)
  {
    w.symbols.Some? && exists s :: s in w.symbols.value && TaggedWith(code, s)
  }

  /** One word of `getInlineWords`: its symbols of the language, if any,
      anchored where `getPositions` puts the word's box. */
  function WordLine(code: string, w: Word): (r: Option<SymbolLine>)
    ensures r.Some? <==> Yields(code, w)
    ensures r.Some? ==> (r.value.x, r.value.y) == Positions(NormalizedVertices(w))
    ensures r.Some? ==> r.value.word == JoinedText(FilterLanguageCode(code, w.symbols.value))
  {
    match w.symbols
    case None => None
    case Some(symbols) =>
      var results := FilterLanguageCode(code, symbols);
      FilterLanguageCodeEmpty(code, symbols);
      if |results| == 0 then None else Some(FilterSymbolsJP(results, NormalizedVertices(w)))
  }

  /** `getInlineWords(languageCode, block)`: the merged fragments of the
      block, or undefined when no word has a symbol of the language; it
      throws exactly when the `symbolsJoin` of one of its paragraphs does. */
  function GetInlineWords(code: string, block: Block): (r: Result<Option<seq<SymbolLine>>>)
    ensures r == Ok(None) <==>
              block.paragraphs.None?
              || forall p, w :: p in block.paragraphs.value && p.words.Some? && w in p.words.value ==> !Yields(code, w)
    ensures block.paragraphs.Some? ==>
              (r.TypeError? <==> exists p :: p in block.paragraphs.value && Throws((w: Word) => WordLine(code, w), p))
    ensures block.paragraphs.Some? && r.Ok? && r.value.Some? ==>
              r.value.value == Flatten(OkValues(ParagraphResults((w: Word) => WordLine(code, w), block.paragraphs.value)))
  {
    InlineWords((w: Word) => WordLine(code, w), block)
  }

  /** The word step of `start`, with the language fixed. */
  function JpLine(w: Word): Option<SymbolLine>
  {
    WordLine(Language, w)
  }

  /** The filter of `getSymbols`, as its chain of early returns. */
  predicate Keep(f: SymbolLine)
  {
    if f.y == 67 && f.x > 820 then false
    else if 103 <= f.y <= 118 then false
    else if f.y < 120 && f.word == "·" then false
    else true
  }

  /** `getSymbols`: all fragments of all pages without the corner at y 67
      right of x 820, without the band y 103..118, and without a lone middle
      dot above y 120; everything else is kept in order. */
  function GetSymbols(values: Option<seq<seq<SymbolLine>>>): (r: seq<SymbolLine>)
    ensures values.None? ==> r == []
    ensures forall f :: f in r ==>
              && !(f.y == 67 && f.x > 820)
              && !(103 <= f.y <= 118)
              && !(f.y < 120 && f.word == "·")
    ensures values.Some? ==> IsSubseq(r, Flatten(values.value))
    ensures values.Some? ==>
              forall f :: multiset(r)[f] == if Keep(f) then multiset(Flatten(values.value))[f] else 0
  {
    match values
    case None => []
    case Some(vs) =>
      var all := Flatten(vs);
      var r := Filter(Keep, all);
      FilterSubseq(Keep, all);
      assert forall f :: multiset(r)[f] == if Keep(f) then multiset(all)[f] else 0 by {
        forall f ensures multiset(r)[f] == if Keep(f) then multiset(all)[f] else 0 {
          FilterCount(Keep, all, f);
        }
      }
      r
  }

  /** `num`: the first fragment on row 30. */
  function FindNum(symbols: seq<SymbolLine>): (r: Option<SymbolLine>)
    ensures r.None? <==> forall i :: 0 <= i < |symbols| ==> symbols[i].y != 30
    ensures r.Some? ==>
              r.value.y == 30
              && exists i :: 0 <= i < |symbols| && symbols[i] == r.value && forall j :: 0 <= j < i ==> symbols[j].y != 30
  {
    Find((s: SymbolLine) => s.y == 30, symbols)
  }

  /** `subject`: the first fragment on row 64 or 65 at x 140 or more. */
  function FindSubject(symbols: seq<SymbolLine>): (r: Option<SymbolLine>)
    ensures r.None? <==> forall i :: 0 <= i < |symbols| ==> !((symbols[i].y == 65 || symbols[i].y == 64) && symbols[i].x >= 140)
    ensures r.Some? ==>
              (r.value.y == 65 || r.value.y == 64) && r.value.x >= 140
              && exists i :: 0 <= i < |symbols| && symbols[i] == r.value
                   && forall j :: 0 <= j < i ==> !((symbols[j].y == 65 || symbols[j].y == 64) && symbols[j].x >= 140)
  {
    Find((s: SymbolLine) => (s.y == 65 || s.y == 64) && s.x >= 140, symbols)
  }

  /** `removeSymbol`: nothing when there is no target, otherwise every
      fragment equal to the target in x, y and word is dropped. */
  function RemoveSymbol(symbols: seq<SymbolLine>, target: Option<SymbolLine>): (r: seq<SymbolLine>)
    ensures target.None? ==> r == symbols
    ensures forall f :: multiset(r)[f] == if target == Some(f) then 0 else multiset(symbols)[f]
    ensures IsSubseq(r, symbols)
  {
    match target
    case None =>
      assert IsSubseq(symbols, symbols) by {
        FilterAll((s: SymbolLine) => true, symbols);
        FilterSubseq((s: SymbolLine) => true, symbols);
      }
      symbols
    case Some(o) =>
      var p := (s: SymbolLine) => if s.x != o.x then true else if s.y != o.y then true else s.word != o.word;
      var r := Filter(p, symbols);
      FilterSubseq(p, symbols);
      assert forall f :: multiset(r)[f] == if target == Some(f) then 0 else multiset(symbols)[f] by {
        forall f ensures multiset(r)[f] == if target == Some(f) then 0 else multiset(symbols)[f] {
          FilterCount(p, symbols, f);
        }
      }
      r
  }

  /** The two removals of `start` drop exactly the fragments equal to `num`
      or to `subject`, and keep the others in order. */
  lemma RemoveBoth(symbols: seq<SymbolLine>)
    ensures var num, subject := FindNum(symbols), FindSubject(symbols);
            var r := RemoveSymbol(RemoveSymbol(symbols, num), subject);
            && IsSubseq(r, RemoveSymbol(symbols, num))
            && forall f :: multiset(r)[f] == if num == Some(f) || subject == Some(f) then 0 else multiset(symbols)[f]
  {
  }

  /** `Math.round(k / 15)` */
  function RoundQ(k: int): int
  {
    ((k as real) / 15.0 + 0.5).Floor
  }

  lemma RoundQBounds(k: int)
    ensures 30 * RoundQ(k) <= 2 * k + 15 < 30 * RoundQ(k) + 30
  {
    var v := (k as real) / 15.0 + 0.5;
    assert (v.Floor as real) <= v < (v.Floor as real) + 1.0;
  }

  /** The snap of one row key in `fixedOffset`. */
  function SnapKey(k: int): (r: int)
    ensures k < 120 ==> r == k
    ensures k >= 120 ==> r >= 120 && r % 15 == 0 && -7 <= r - k <= 7
  {
    if k < 120 then k
    else if k % 15 == 0 then k
    else
      RoundQBounds(k);
      RoundQ(k) * 15
  }

  /** A key from 120 on snaps to the only multiple of 15 within 7 of it, so
      to the nearest one. */
  lemma SnapNearest(k: int, m: int)
    requires k >= 120 && m % 15 == 0 && -7 <= m - k <= 7
    ensures m == SnapKey(k)
  {
    var r := SnapKey(k);
    var a, b := m / 15, r / 15;
    assert m == 15 * a && r == 15 * b;
  }

  /** Snapped keys stay snapped; snapping keeps the order of keys. */
  lemma SnapLaws()
    ensures Idempotent(SnapKey)
    ensures Monotone(SnapKey)
  {
    forall a ensures SnapKey(SnapKey(a)) == SnapKey(a) {
      if a >= 120 {
        SnapNearest(SnapKey(a), SnapKey(a));
      }
    }
    forall a, b | a <= b ensures SnapKey(a) <= SnapKey(b) {
      if a >= 120 {
        RoundQBounds(a);
        RoundQBounds(b);
        if a % 15 == 0 {
          var c := a / 15;
          assert a == 15 * c;
        }
        if b % 15 == 0 {
          var c := b / 15;
          assert b == 15 * c;
        }
      }
    }
  }

  /** One group of `fixedOffset`, as the source branches on its key. */
  function SnapGroup(key: int, value: seq<SymbolLine>): seq<SymbolLine>
  {
    if key < 120 then value
    else if key % 15 == 0 then value
    else WithY(value, RoundQ(key) * 15)
  }

  /** `fixedOffset` of `start`. */
  function SnapRows(s: seq<SymbolLine>): seq<SymbolLine>
  {
    var gs := GroupByY(s);
    var ks := Keys(s);
    Flatten(seq(|gs|, i requires 0 <= i < |gs| => SnapGroup(ks[i], gs[i])))
  }

  /** The groups left as they are already carry their snapped key. */
  lemma SnapRowsRekey(s: seq<SymbolLine>)
    ensures SnapRows(s) == Rekey(SnapKey, s)
  {
    var gs := GroupByY(s);
    var ks := Keys(s);
    var a := seq(|gs|, i requires 0 <= i < |gs| => SnapGroup(ks[i], gs[i]));
    var b := RekeyedGroups(SnapKey, s);
    forall i | 0 <= i < |gs| ensures a[i] == b[i] {
      if ks[i] < 120 || ks[i] % 15 == 0 {
        var w := WithY(gs[i], SnapKey(ks[i]));
        forall j | 0 <= j < |gs[i]| ensures w[j] == gs[i][j] {
          assert gs[i][j] in gs[i];
        }
        assert w == gs[i];
      }
    }
    assert a == b;
  }

  /** After snapping: as many fragments as before, each one of the input with
      only its y snapped, in row order; every row from 120 on is a multiple of
      15, and no row crosses 120 in either direction. */
  lemma SnapRowsSpec(s: seq<SymbolLine>)
    ensures |SnapRows(s)| == |s|
    ensures SortedByY(SnapRows(s))
    ensures forall f :: f in SnapRows(s) <==> exists g :: g in s && f == g.(y := SnapKey(g.y))
    ensures forall f :: f in SnapRows(s) && f.y >= 120 ==> f.y % 15 == 0
    ensures forall g :: g in s ==> (g.y < 120 <==> SnapKey(g.y) < 120)
  {
    SnapRowsRekey(s);
    SnapLaws();
    RekeySpec(SnapKey, s);
  }

  /** Snapping twice is snapping once. */
  lemma SnapRowsIdempotent(s: seq<SymbolLine>)
    ensures SnapRows(SnapRows(s)) == SnapRows(s)
  {
    SnapRowsRekey(s);
    SnapRowsRekey(SnapRows(s));
    SnapLaws();
    RekeyIdempotent(SnapKey, s);
  }

  /** A row above 120 holds after snapping exactly the fragments it held
      before, in input order. */
  lemma SnapRowsLow(s: seq<SymbolLine>, k: int)
    requires k < 120
    ensures FilterY(SnapRows(s), k) == FilterY(s, k)
  {
    var u := Flatten(GroupByY(s));
    SnapRowsRekey(s);
    RekeyRow(SnapKey, s, k);
    assert FilterY(SnapRows(s), k) == MapY(SnapKey, Preimage(SnapKey, u, k));
    var low := FilterY(u, k);
    PreimageIsFilterY(SnapKey, u, k);
    assert Preimage(SnapKey, u, k) == low;
    forall i | 0 <= i < |low| ensures MapY(SnapKey, low)[i] == low[i] {
      assert low[i] in low;
    }
    assert MapY(SnapKey, low) == low;
    GroupedFilterY(s, k);
  }

  /** The fragments of a row with x in [lo, hi], ordered by x. */
  function Band(value: seq<SymbolLine>, lo: int, hi: int): (r: seq<SymbolLine>)
    ensures SortedByX(r)
    ensures forall f :: f in r ==> lo <= f.x <= hi
    ensures forall f :: multiset(r)[f] == if lo <= f.x <= hi then multiset(value)[f] else 0
  {
    var p := (f: SymbolLine) => lo <= f.x <= hi;
    var b := Filter(p, value);
    var r := SortByX(b);
    assert forall f :: multiset(r)[f] == if lo <= f.x <= hi then multiset(value)[f] else 0 by {
      forall f ensures multiset(r)[f] == if lo <= f.x <= hi then multiset(value)[f] else 0 {
        FilterCount(p, value, f);
      }
    }
    assert forall f :: f in r ==> lo <= f.x <= hi by {
      forall f | f in r ensures lo <= f.x <= hi {
        assert f in multiset(r);
      }
    }
    r
  }

  lemma {:induction false} FilterXEqBand(value: seq<SymbolLine>, lo: int, hi: int, v: int)
    ensures FilterXEq(Filter((f: SymbolLine) => lo <= f.x <= hi, value), v)
            == if lo <= v <= hi then FilterXEq(value, v) else []
  {
    if value != [] {
      FilterXEqBand(value[1..], lo, hi, v);
    }
  }

  /** Fragments of a band that share an x keep their order in the row. */
  lemma BandStable(value: seq<SymbolLine>, lo: int, hi: int, v: int)
    ensures FilterXEq(Band(value, lo, hi), v) == if lo <= v <= hi then FilterXEq(value, v) else []
  {
    SortByXStable(Filter((f: SymbolLine) => lo <= f.x <= hi, value), v);
    FilterXEqBand(value, lo, hi, v);
  }

  function Question(value: seq<SymbolLine>): string { Words(Band(value, 80, 200)) }

  function Content(value: seq<SymbolLine>): string { Words(Band(value, 220, 600)) }

  function Rate(value: seq<SymbolLine>): string { Words(Band(value, 620, 660)) }

  /** `${f?.word.slice(-n)}`: the last n characters, or "undefined". */
  function Tail(f: Option<SymbolLine>, n: nat): string
    requires n > 0
  {
    match f
    case None => "undefined"
    case Some(g) => SliceFromEnd(g.word, n)
  }

  /** The seven fields of a record: the subject's last 2 characters, the
      number's last 4, the fixed heading, the content up to the first `・`,
      the piece after it (or nothing), the rate and the question. */
  function Fields(subject: Option<SymbolLine>, num: Option<SymbolLine>, content: string, rate: string, question: string): (fs: seq<string>)
    ensures |fs| == 7
  {
    var contents := Split(content, '・');
    var second := if |contents| > 1 then contents[1] else "";
    [Tail(subject, 2), Tail(num, 4), "週テスト", contents[0], second, rate, question]
  }

  /** The template literal: the fields on lines of their own, each after six
      spaces and a bar. */
  function Template(fields: seq<string>): string
  {
    JoinStr(fields, "\n      |") + "\n      "
  }

  /** The record of one row from y 120 on. */
  function Record(subject: Option<SymbolLine>, num: Option<SymbolLine>, content: string, rate: string, question: string): string
  {
    DeleteAll(Clean(Template(Fields(subject, num, content, rate, question))), "【復習】")
  }

  /** A record is the fields with spaces and line breaks removed, joined by
      `|`, with every `【復習】` then deleted; it contains no space and no line
      break. */
  lemma RecordSpec(subject: Option<SymbolLine>, num: Option<SymbolLine>, content: string, rate: string, question: string)
    ensures Record(subject, num, content, rate, question)
            == DeleteAll(JoinStr(CleanAll(Fields(subject, num, content, rate, question)), "|"), "【復習】")
    ensures ' ' !in Record(subject, num, content, rate, question)
    ensures '\n' !in Record(subject, num, content, rate, question)
  {
    CleanTemplate(Fields(subject, num, content, rate, question));
  }

  lemma CleanLiterals()
    ensures Clean("\n      |") == "|"
    ensures Clean("\n      ") == ""
    ensures Clean("週テスト") == "週テスト"
  {
    assert "\n      |" == "\n      " + "|";
    CleanConcat("\n      ", "|");
    CleanBlank("\n      ");
    CleanKeeps("|");
    CleanKeeps("週テスト");
  }

  lemma CleanTemplate(fields: seq<string>)
    ensures Clean(JoinStr(fields, "\n      |") + "\n      ") == JoinStr(CleanAll(fields), "|")
  {
    var sep := "\n      |";
    CleanLiterals();
    CleanJoin(fields, sep);
    CleanConcat(JoinStr(fields, sep), "\n      ");
  }

  /** One group of `response`: a row above 120 is its words in group order;
      any other row is dropped when its three bands are blank and otherwise
      becomes a record. */
  function RowFor(subject: Option<SymbolLine>, num: Option<SymbolLine>, key: int, value: seq<SymbolLine>): (r: Option<string>)
    ensures key < 120 ==> r == Some(Words(value))
    ensures r.None? <==>
              key >= 120 && IsBlank(Question(value)) && IsBlank(Content(value)) && IsBlank(Rate(value))
    ensures key >= 120 && r.Some? ==>
              r.value == Record(subject, num, Content(value), Rate(value), Question(value))
  {
    if key < 120 then Some(Words(value))
    else
      var question := Question(value);
      var content := Content(value);
      var rate := Rate(value);
      TrimBlank(question);
      TrimBlank(content);
      TrimBlank(rate);
      if |Trim(content)| == 0 && |Trim(rate)| == 0 && |Trim(question)| == 0 then None
      else Some(Record(subject, num, content, rate, question))
  }

  /** What `response` maps each group to, key by key in ascending order. */
  function RowResults(s: seq<SymbolLine>, subject: Option<SymbolLine>, num: Option<SymbolLine>): (rs: seq<Option<string>>)
    ensures |rs| == |Keys(s)|
    ensures forall i :: 0 <= i < |rs| ==> rs[i] == RowFor(subject, num, Keys(s)[i], FilterY(s, Keys(s)[i]))
  {
    var gs := GroupByY(s);
    var ks := Keys(s);
    seq(|gs|, i requires 0 <= i < |gs| => RowFor(subject, num, ks[i], gs[i]))
  }

  /** `response` of `start`: the rows that are not blank, in ascending key
      order, one per such key; a row is there exactly when some key's group
      produces it. */
  function Rows(s: seq<SymbolLine>, subject: Option<SymbolLine>, num: Option<SymbolLine>): (r: seq<string>)
    ensures r == Somes(RowResults(s, subject, num))
    ensures |r| == SomeCount(RowResults(s, subject, num))
    ensures |r| == |Keys(s)| <==>
              forall i :: 0 <= i < |Keys(s)| ==> RowResults(s, subject, num)[i].Some?
    ensures forall row :: row in r <==>
              exists i :: 0 <= i < |Keys(s)| && RowResults(s, subject, num)[i] == Some(row)
  {
    var rs := RowResults(s, subject, num);
    assert forall row :: row in Somes(rs) <==> exists i :: 0 <= i < |rs| && rs[i] == Some(row) by {
      forall row {
        SomesMember(rs, row);
      }
    }
    Somes(rs)
  }

  /** After snapping, the row of a key above 120 is the plain text of the
      fragments that had that y, in input order. */
  lemma LowRows(s: seq<SymbolLine>, subject: Option<SymbolLine>, num: Option<SymbolLine>, i: int)
    requires 0 <= i < |Keys(SnapRows(s))| && Keys(SnapRows(s))[i] < 120
    ensures RowFor(subject, num, Keys(SnapRows(s))[i], GroupByY(SnapRows(s))[i])
            == Some(Words(FilterY(s, Keys(SnapRows(s))[i])))
  {
    SnapRowsLow(s, Keys(SnapRows(s))[i]);
  }

  /** Nothing to filter leaves no fragment. */
  lemma GetSymbolsNil(values: Option<seq<seq<SymbolLine>>>)
    requires values.Some? ==> Flatten(values.value) == []
    ensures GetSymbols(values) == []
  {
    var r := GetSymbols(values);
    assert multiset(r) == multiset{};
  }

  /** No fragment gives no row, whatever the lesson number and subject. */
  lemma RowsNil(subject: Option<SymbolLine>, num: Option<SymbolLine>)
    ensures Rows(SnapRows(RemoveSymbol(RemoveSymbol([], num), subject)), subject, num) == []
  {
    var s := RemoveSymbol(RemoveSymbol([], num), subject);
    assert multiset(s) == multiset{};
    SnapRowsSpec([]);
    assert SnapRows([]) == [];
  }

  /** Pages where no word has a symbol of the language give no row and no
      TypeError. */
  lemma BarrenRows(pages: Option<seq<Page>>)
    requires Barren(JpLine, pages)
    ensures Values(JpLine, pages).Ok?
    ensures var symbols := GetSymbols(Values(JpLine, pages).value);
            var num, subject := FindNum(symbols), FindSubject(symbols);
            Rows(SnapRows(RemoveSymbol(RemoveSymbol(symbols, num), subject)), subject, num) == []
  {
    BarrenValues(JpLine, pages);
    var symbols := GetSymbols(Values(JpLine, pages).value);
    GetSymbolsNil(Values(JpLine, pages).value);
    RowsNil(FindSubject(symbols), FindNum(symbols));
  }

  /** `start`: the rows of one page, or the TypeError one of its words
      throws. `symbols` is reassigned by each clean-up step. */
  method Start(pages: Option<seq<Page>>) returns (r: Result<seq<string>>)
    ensures r.TypeError? <==> Values(JpLine, pages).TypeError?
    ensures r.Ok? ==>
              var symbols := GetSymbols(Values(JpLine, pages).value);
              var num, subject := FindNum(symbols), FindSubject(symbols);
              r.value == Rows(SnapRows(RemoveSymbol(RemoveSymbol(symbols, num), subject)), subject, num)
    ensures Barren(JpLine, pages) ==> r == Ok([])
  {
    if Barren(JpLine, pages) {
      BarrenRows(pages);
    }
    var values := Values(JpLine, pages);
    if values.TypeError? {
      return TypeError;
    }
    var symbols := GetSymbols(values.value);
    var num := FindNum(symbols);
    var subject := FindSubject(symbols);
    symbols := RemoveSymbol(symbols, num);
    symbols := RemoveSymbol(symbols, subject);
    var fixedOffset := SnapRows(symbols);
    r := Ok(Rows(fixedOffset, subject, num));
  }
}
