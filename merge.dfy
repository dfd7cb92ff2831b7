/** The stages src/pdf2lines.ts and src/image2lines.ts share word for word:
    the text of a word's symbols, `symbolsJoin`, and the walk from pages
    down to words in `getInlineWords` and `start`. The two files differ only
    in what one word yields, which is a parameter here. */
module Merge {
  import opened Results
  import opened Seqs
  import opened Vision
  import opened Fragments

  /** The `endfix` of `filterSymbolsJP`: a space after SPACE, nothing otherwise. */
  function Endfix(b: Option<BreakType>): string
  {
    if b == Some(Space) then " " else ""
  }

  /** `symbols.map((item) => `${item.text}${endfix}`).join('')` */
  function JoinedText(symbols: seq<Symbol>): string
  {
    if symbols == [] then "" else TextOf(symbols[0]) + Endfix(BreakOf(symbols[0])) + JoinedText(symbols[1..])
  }

  /** The text of a word is built symbol by symbol: a SPACE break adds exactly
      one " " after that symbol's text, any other break or none adds nothing. */
  lemma {:induction false} JoinedTextConcat(a: seq<Symbol>, b: seq<Symbol>)
    ensures JoinedText(a + b) == JoinedText(a) + JoinedText(b)
    ensures |a| == 1 ==>
              JoinedText(a) == TextOf(a[0]) + (if BreakOf(a[0]) == Some(Space) then " " else "")
  {
    if a == [] {
      assert a + b == b;
    } else {
      assert (a + b)[1..] == a[1..] + b;
      JoinedTextConcat(a[1..], b);
    }
  }

  /** The x band that `symbolsJoin` removes from rows of several fragments. */
  predicate InBand(f: SymbolLine) { 606 <= f.x <= 608 }

  /** `filters` of `symbolsJoin`, with the guard `606 <= item.x || item.x <= 608`
      kept exactly as written. */
  function Filters(value: seq<SymbolLine>): seq<SymbolLine>
  {
    if |value| > 1 && exists i :: 0 <= i < |value| && (606 <= value[i].x || value[i].x <= 608)
    then Filter((item: SymbolLine) => 606 > item.x || item.x > 608, value)
    else value
  }

  /** The merge of one paragraph row (one group of `symbolsJoin`); reading
      `newArray[0].x` of an empty array throws. */
  function MergeGroup(value: seq<SymbolLine>): (r: Result<SymbolLine>)
    requires value != []
  {
    var newArray := SortByX(Filters(value));
    if |newArray| == 0 then TypeError
    else Ok(SymbolLine(newArray[0].x, value[0].y, Words(newArray)))
  }

  /** The members of a row that survive the band filter. */
  function Survivors(value: seq<SymbolLine>): seq<SymbolLine>
  {
    if |value| > 1 then Filter((f: SymbolLine) => !InBand(f), value) else value
  }

  /** The guard is a tautology, so a row of one fragment is kept whole and a
      row of several loses exactly its members with 606 <= x <= 608. */
  lemma FiltersAreSurvivors(value: seq<SymbolLine>)
    ensures Filters(value) == Survivors(value)
    ensures |value| > 1 ==> (Survivors(value) != [] <==> exists f :: f in value && !InBand(f))
  {
    if |value| > 1 {
      assert 606 <= value[0].x || value[0].x <= 608;
      FilterAgree((item: SymbolLine) => 606 > item.x || item.x > 608, (f: SymbolLine) => !InBand(f), value);
      var q := (f: SymbolLine) => !InBand(f);
      if f :| f in value && !InBand(f) {
        FilterCount(q, value, f);
        assert f in multiset(Survivors(value));
      }
      if Survivors(value) != [] {
        var f := Survivors(value)[0];
        assert f in Survivors(value);
        assert f in value && !InBand(f);
      }
    }
  }

  /** Reading the guard as the band test it resembles gives the same rows:
      when no member is in the band, the filter removes nothing. */
  lemma GuardHarmless(value: seq<SymbolLine>)
    ensures Filters(value) ==
            if |value| > 1 && exists i :: 0 <= i < |value| && InBand(value[i])
            then Filter((f: SymbolLine) => !InBand(f), value)
            else value
  {
    FiltersAreSurvivors(value);
    if |value| > 1 && !exists i :: 0 <= i < |value| && InBand(value[i]) {
      FilterAll((f: SymbolLine) => !InBand(f), value);
    }
  }

  /** Two fragments of one row, both in the band: `newArray` is empty and
      reading its first x throws. */
  lemma MergeThrowsOnBand()
    ensures MergeGroup([SymbolLine(606, 10, "a"), SymbolLine(608, 10, "b")]) == TypeError
  {
    var value := [SymbolLine(606, 10, "a"), SymbolLine(608, 10, "b")];
    FiltersAreSurvivors(value);
    assert !(exists f :: f in value && !InBand(f));
  }

  /** The least x of a sorted permutation is the least x of the original. */
  lemma SortedHeadIsMin(s: seq<SymbolLine>)
    requires s != []
    ensures SortByX(s) != []
    ensures forall f :: f in s ==> SortByX(s)[0].x <= f.x
    ensures SortByX(s)[0] in s
  {
    var sorted := SortByX(s);
    assert s[0] in multiset(sorted);
    assert sorted[0] in multiset(s);
    forall f | f in s ensures sorted[0].x <= f.x {
      assert f in multiset(sorted);
    }
  }

  /** A row of one fragment merges to that fragment. */
  lemma MergeSingle(value: seq<SymbolLine>)
    requires |value| == 1
    ensures MergeGroup(value) == Ok(value[0])
  {
    assert Filters(value) == value;
    assert value[1..] == [];
    assert SortByX(value) == InsertByX(value[0], SortByX([]));
    assert SortByX(value) == [value[0]];
    assert Words(value) == value[0].word + Words(value[1..]);
    assert Words(value) == value[0].word;
    var m := value[0];
    assert MergeGroup(value) == Ok(SymbolLine(m.x, m.y, m.word));
  }

  /** The merge throws exactly when nothing survives; otherwise it is anchored
      at the smallest surviving x and the row's y and carries the survivors'
      words in ascending x. */
  lemma MergeGroupSpec(value: seq<SymbolLine>)
    requires value != []
    ensures |value| == 1 ==> MergeGroup(value) == Ok(value[0])
    ensures MergeGroup(value).Ok? <==> Survivors(value) != []
    ensures |value| > 1 ==> (MergeGroup(value).Ok? <==> exists f :: f in value && !InBand(f))
    ensures MergeGroup(value).Ok? ==>
              var m := MergeGroup(value).value;
              && m.y == value[0].y
              && m.word == Words(SortByX(Survivors(value)))
              && (forall f :: f in Survivors(value) ==> m.x <= f.x)
              && (exists f :: f in Survivors(value) && f.x == m.x)
  {
    FiltersAreSurvivors(value);
    if |value| == 1 {
      MergeSingle(value);
    }
    var sv := Survivors(value);
    if sv != [] {
      SortedHeadIsMin(sv);
    } else {
      assert SortByX(sv) == [];
    }
  }

  /** Merge every group; a group that throws makes the whole call throw. */
  function MergeAll(gs: seq<seq<SymbolLine>>): (r: Result<seq<SymbolLine>>)
    requires forall i :: 0 <= i < |gs| ==> gs[i] != []
    ensures r.Ok? <==> forall i :: 0 <= i < |gs| ==> MergeGroup(gs[i]).Ok?
    ensures r.Ok? ==> |r.value| == |gs| && forall i :: 0 <= i < |gs| ==> r.value[i] == MergeGroup(gs[i]).value
  {
    if gs == [] then Ok([])
    else
      var head, rest := MergeGroup(gs[0]), MergeAll(gs[1..]);
      MergeAllStep(gs, rest);
      if head.TypeError? || rest.TypeError? then TypeError else Ok([head.value] + rest.value)
  }

  /** The rows after the first merge as the tail of the rows. */
  lemma MergeAllStep(gs: seq<seq<SymbolLine>>, rest: Result<seq<SymbolLine>>)
    requires gs != [] && forall i :: 0 <= i < |gs| ==> gs[i] != []
    requires rest.Ok? <==> forall i :: 0 <= i < |gs| - 1 ==> MergeGroup(gs[1..][i]).Ok?
    requires rest.Ok? ==> |rest.value| == |gs| - 1 && forall i :: 0 <= i < |gs| - 1 ==> rest.value[i] == MergeGroup(gs[1..][i]).value
    ensures rest.Ok? <==> forall i :: 1 <= i < |gs| ==> MergeGroup(gs[i]).Ok?
    ensures rest.Ok? ==> forall i :: 1 <= i < |gs| ==> rest.value[i - 1] == MergeGroup(gs[i]).value
  {
    assert forall i :: 1 <= i < |gs| ==> gs[i] == gs[1..][i - 1];
  }

  /** Every row of `symbolsJoin` merges exactly when it has a survivor. */
  lemma GroupsMerge(symbols: seq<SymbolLine>)
    ensures var gs := GroupByY(symbols);
            forall i :: 0 <= i < |gs| ==> (MergeGroup(gs[i]).Ok? <==> Survivors(gs[i]) != [])
    ensures var gs := GroupByY(symbols);
            forall i :: 0 <= i < |gs| ==> (MergeGroup(gs[i]).Ok? ==> MergeGroup(gs[i]).value.y == Keys(symbols)[i])
  {
    var gs := GroupByY(symbols);
    forall i | 0 <= i < |gs|
      ensures MergeGroup(gs[i]).Ok? <==> Survivors(gs[i]) != []
      ensures MergeGroup(gs[i]).Ok? ==> MergeGroup(gs[i]).value.y == Keys(symbols)[i]
    {
      MergeGroupSpec(gs[i]);
    }
  }

  /** Quantifying over the rows is quantifying over the distinct keys. */
  lemma RowsAreKeys(symbols: seq<SymbolLine>)
    ensures var gs := GroupByY(symbols);
            (forall i :: 0 <= i < |gs| ==> Survivors(gs[i]) != [])
            <==> (forall k :: k in Keys(symbols) ==> Survivors(FilterY(symbols, k)) != [])
  {
    var gs := GroupByY(symbols);
    var ks := Keys(symbols);
    if forall i :: 0 <= i < |gs| ==> Survivors(gs[i]) != [] {
      forall k | k in ks ensures Survivors(FilterY(symbols, k)) != [] {
        var i :| 0 <= i < |ks| && ks[i] == k;
        assert gs[i] == FilterY(symbols, k);
      }
    }
    if forall k :: k in ks ==> Survivors(FilterY(symbols, k)) != [] {
      forall i | 0 <= i < |gs| ensures Survivors(gs[i]) != [] {
        assert ks[i] in ks;
        assert gs[i] == FilterY(symbols, ks[i]);
      }
    }
  }

  /** `symbolsJoin`: one merged fragment per distinct y, ascending by y. */
  function SymbolsJoin(symbols: seq<SymbolLine>): (r: Result<seq<SymbolLine>>)
    ensures r.Ok? <==> forall k :: k in Keys(symbols) ==> Survivors(FilterY(symbols, k)) != []
    ensures r.Ok? ==>
              && |r.value| == |Keys(symbols)|
              && forall i :: 0 <= i < |r.value| ==> r.value[i].y == Keys(symbols)[i]
  {
    GroupsMerge(symbols);
    RowsAreKeys(symbols);
    MergeAll(GroupByY(symbols))
  }

  /** The fragments the words of one paragraph yield, in word order. */
  function WordFragments(line: Word -> Option<SymbolLine>, words: seq<Word>): (fs: seq<SymbolLine>)
    ensures fs == [] <==> forall w :: w in words ==> line(w).None?
  {
    var opts := seq(|words|, i requires 0 <= i < |words| => line(words[i]));
    assert (forall w :: w in words ==> line(w).None?) <==> (forall i :: 0 <= i < |opts| ==> opts[i].None?) by {
      if forall w :: w in words ==> line(w).None? {
        forall i | 0 <= i < |opts| ensures opts[i].None? {
          assert words[i] in words;
        }
      }
      if forall i :: 0 <= i < |opts| ==> opts[i].None? {
        forall w | w in words ensures line(w).None? {
          var i :| 0 <= i < |words| && words[i] == w;
          assert opts[i] == line(w);
        }
      }
    }
    Somes(opts)
  }

  /** The paragraph makes `symbolsJoin` throw: its words yield fragments and
      some row of them is left empty by the filter (`newArray[0].x`). */
  predicate Throws(line: Word -> Option<SymbolLine>, p: Paragraph)
  {
    p.words.Some? && WordFragments(line, p.words.value) != []
    && SymbolsJoin(WordFragments(line, p.words.value)).TypeError?
  }

  /** One paragraph of `getInlineWords`, given what one word yields: the
      defined fragments of its words through `symbolsJoin`, undefined when
      there are none, and the TypeError `symbolsJoin` throws. */
  function ParagraphLines(line: Word -> Option<SymbolLine>, p: Paragraph): (r: Result<Option<seq<SymbolLine>>>)
    ensures r == Ok(None) <==> p.words.None? || forall w :: w in p.words.value ==> line(w).None?
    ensures r.TypeError? <==> Throws(line, p)
    ensures p.words.Some? && r.Ok? && r.value.Some? ==>
              r.value.value == SymbolsJoin(WordFragments(line, p.words.value)).value
  {
    match p.words
    case None => Ok(None)
    case Some(words) =>
      var lines := WordFragments(line, words);
      if |lines| == 0 then Ok(None)
      else
        assert Keys(lines) != [] by { assert lines[0].y in Keys(lines); }
        match SymbolsJoin(lines)
        case TypeError => TypeError
        case Ok(joined) => Ok(Some(joined))
  }

  /** The result of every paragraph of a block, in order. */
  function ParagraphResults(line: Word -> Option<SymbolLine>, paragraphs: seq<Paragraph>): (rs: seq<Result<Option<seq<SymbolLine>>>>)
    ensures |rs| == |paragraphs|
    ensures forall i :: 0 <= i < |rs| ==> rs[i] == ParagraphLines(line, paragraphs[i])
  {
    seq(|paragraphs|, i requires 0 <= i < |paragraphs| => ParagraphLines(line, paragraphs[i]))
  }

  /** No paragraph yields a fragment list exactly when no word is productive. */
  lemma NoParagraphLines(line: Word -> Option<SymbolLine>, paragraphs: seq<Paragraph>)
    ensures var rs := ParagraphResults(line, paragraphs);
            (forall i :: 0 <= i < |rs| ==> rs[i] == Ok(None)) <==>
            (forall p, w :: p in paragraphs && p.words.Some? && w in p.words.value ==> line(w).None?)
  {
    var rs := ParagraphResults(line, paragraphs);
    if forall i :: 0 <= i < |rs| ==> rs[i] == Ok(None) {
      forall p, w | p in paragraphs && p.words.Some? && w in p.words.value ensures line(w).None? {
        var i :| 0 <= i < |paragraphs| && paragraphs[i] == p;
        assert rs[i] == ParagraphLines(line, p);
      }
    }
    if forall p, w :: p in paragraphs && p.words.Some? && w in p.words.value ==> line(w).None? {
      forall i | 0 <= i < |rs| ensures rs[i] == Ok(None) {
        assert paragraphs[i] in paragraphs;
      }
    }
  }

  /** The collected lists are empty exactly when every paragraph gave none. */
  lemma CollectedEmpty(rs: seq<Result<Option<seq<SymbolLine>>>>)
    requires Collect(rs).Ok?
    ensures Collect(rs).value == [] <==> forall i :: 0 <= i < |rs| ==> rs[i] == Ok(None)
  {
    var vs := seq(|rs|, i requires 0 <= i < |rs| => rs[i].value);
    assert Collect(rs).value == Somes(vs);
    assert forall i :: 0 <= i < |rs| ==> (vs[i].None? <==> rs[i] == Ok(None));
  }

  /** Some result of the list throws exactly when some paragraph throws. */
  lemma ParagraphThrows(line: Word -> Option<SymbolLine>, paragraphs: seq<Paragraph>)
    ensures var rs := ParagraphResults(line, paragraphs);
            (exists i :: 0 <= i < |rs| && rs[i].TypeError?) <==> (exists p :: p in paragraphs && Throws(line, p))
  {
    var rs := ParagraphResults(line, paragraphs);
    if i :| 0 <= i < |rs| && rs[i].TypeError? {
      assert paragraphs[i] in paragraphs && Throws(line, paragraphs[i]);
    }
    if p :| p in paragraphs && Throws(line, p) {
      var i :| 0 <= i < |paragraphs| && paragraphs[i] == p;
      assert rs[i].TypeError?;
    }
  }

  /** The body of `getInlineWords`, given what one word yields: undefined
      when no paragraph yields fragments, the TypeError of a paragraph whose
      `symbolsJoin` throws, and otherwise the merged rows of every paragraph
      that has them, paragraph after paragraph. */
  function InlineWords(line: Word -> Option<SymbolLine>, block: Block): (r: Result<Option<seq<SymbolLine>>>)
    ensures r == Ok(None) <==>
              block.paragraphs.None?
              || forall p, w :: p in block.paragraphs.value && p.words.Some? && w in p.words.value ==> line(w).None?
    ensures block.paragraphs.Some? ==>
              (r.TypeError? <==> exists p :: p in block.paragraphs.value && Throws(line, p))
    ensures block.paragraphs.Some? && r.Ok? && r.value.Some? ==>
              r.value.value == Flatten(OkValues(ParagraphResults(line, block.paragraphs.value)))
  {
    match block.paragraphs
    case None => Ok(None)
    case Some(paragraphs) =>
      var rs := ParagraphResults(line, paragraphs);
      NoParagraphLines(line, paragraphs);
      ParagraphThrows(line, paragraphs);
      match Collect(rs)
      case TypeError => TypeError
      case Ok(inlineWords) =>
        CollectedEmpty(rs);
        CollectValues(rs);
        if |inlineWords| == 0 then Ok(None) else Ok(Some(Flatten(inlineWords)))
  }

  /** The result of every block of a page, in order. */
  function BlockResults(line: Word -> Option<SymbolLine>, blocks: seq<Block>): (rs: seq<Result<Option<seq<SymbolLine>>>>)
    ensures |rs| == |blocks|
    ensures forall i :: 0 <= i < |rs| ==> rs[i] == InlineWords(line, blocks[i])
  {
    seq(|blocks|, i requires 0 <= i < |blocks| => InlineWords(line, blocks[i]))
  }

  /** The blocks of one page, each through `getInlineWords`, defined results
      concatenated; a page without blocks yields nothing. */
  function PageFragments(line: Word -> Option<SymbolLine>, page: Page): (r: Result<Option<seq<SymbolLine>>>)
    ensures r == Ok(None) <==> page.blocks.None?
    ensures page.blocks.Some? ==>
              (r.TypeError? <==> exists i :: 0 <= i < |page.blocks.value| && InlineWords(line, page.blocks.value[i]).TypeError?)
    ensures page.blocks.Some? && r.Ok? ==>
              r == Ok(Some(Flatten(OkValues(BlockResults(line, page.blocks.value)))))
  {
    match page.blocks
    case None => Ok(None)
    case Some(blocks) =>
      var c := Collect(BlockResults(line, blocks));
      if c.TypeError? then TypeError
      else
        CollectValues(BlockResults(line, blocks));
        Ok(Some(Flatten(c.value)))
  }

  /** The result of every page, in order. */
  function PageResults(line: Word -> Option<SymbolLine>, pages: seq<Page>): (rs: seq<Result<Option<seq<SymbolLine>>>>)
    ensures |rs| == |pages|
    ensures forall i :: 0 <= i < |rs| ==> rs[i] == PageFragments(line, pages[i])
  {
    seq(|pages|, i requires 0 <= i < |pages| => PageFragments(line, pages[i]))
  }

  /** `values` of `start`: the fragments of every page that has blocks. */
  function Values(line: Word -> Option<SymbolLine>, pages: Option<seq<Page>>): (r: Result<Option<seq<seq<SymbolLine>>>>)
    ensures pages.None? ==> r == Ok(None)
    ensures pages.Some? ==>
              && (r.TypeError? <==> exists i :: 0 <= i < |pages.value| && PageFragments(line, pages.value[i]).TypeError?)
              && (r.Ok? ==> r.value.Some? && |r.value.value| <= |pages.value|)
              && (r.Ok? ==> r == Ok(Some(OkValues(PageResults(line, pages.value)))))
  {
    match pages
    case None => Ok(None)
    case Some(ps) =>
      var c := Collect(PageResults(line, ps));
      if c.TypeError? then TypeError
      else
        CollectValues(PageResults(line, ps));
        Ok(Some(c.value))
  }

  /** No word of the block yields a fragment. */
  ghost predicate BarrenBlock(line: Word -> Option<SymbolLine>, b: Block)
  {
    b.paragraphs.Some? ==>
      forall p, w :: p in b.paragraphs.value && p.words.Some? && w in p.words.value ==> line(w).None?
  }

  /** No word of the page yields a fragment. */
  ghost predicate BarrenPage(line: Word -> Option<SymbolLine>, page: Page)
  {
    page.blocks.Some? ==> forall b :: b in page.blocks.value ==> BarrenBlock(line, b)
  }

  /** No word of any page yields a fragment. */
  ghost predicate Barren(line: Word -> Option<SymbolLine>, pages: Option<seq<Page>>)
  {
    pages.Some? ==> forall page :: page in pages.value ==> BarrenPage(line, page)
  }

  /** A page without fragments gives undefined or the empty list, and does
      not throw. */
  lemma BarrenPageFragments(line: Word -> Option<SymbolLine>, page: Page)
    requires BarrenPage(line, page)
    ensures PageFragments(line, page) == Ok(None) || PageFragments(line, page) == Ok(Some([]))
  {
    if page.blocks.Some? {
      var bs := page.blocks.value;
      var rs := BlockResults(line, bs);
      assert forall i :: 0 <= i < |rs| ==> rs[i] == Ok(None) by {
        forall i | 0 <= i < |rs| ensures rs[i] == Ok(None) {
          assert bs[i] in bs;
        }
      }
      var vs := seq(|rs|, i requires 0 <= i < |rs| => if rs[i].Ok? then rs[i].value else None);
      assert OkValues(rs) == Somes(vs);
      assert OkValues(rs) == [];
    }
  }

  /** Pages where no word yields a fragment give no fragment at all and no
      TypeError. */
  lemma BarrenValues(line: Word -> Option<SymbolLine>, pages: Option<seq<Page>>)
    requires Barren(line, pages)
    ensures Values(line, pages).Ok?
    ensures Values(line, pages).value.Some? ==> Flatten(Values(line, pages).value.value) == []
  {
    if pages.Some? {
      var ps := pages.value;
      var rs := PageResults(line, ps);
      assert forall i :: 0 <= i < |rs| ==> rs[i] == Ok(None) || rs[i] == Ok(Some([])) by {
        forall i | 0 <= i < |rs| ensures rs[i] == Ok(None) || rs[i] == Ok(Some([])) {
          assert ps[i] in ps;
          BarrenPageFragments(line, ps[i]);
        }
      }
      assert Values(line, pages) == Ok(Some(OkValues(rs)));
      FlattenOkValuesNil(rs);
    }
  }
}
