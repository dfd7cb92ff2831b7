/** src/utils.ts: the language filter, the ASCII-word extractor and the
    per-block word list built from them. */
module Utils {
  import opened Results
  import opened Seqs
  import opened Text
  import opened Vision

  /** `symbol.property?.detectedLanguages?.filter((item) => item.languageCode === languageCode).length`
      is a positive number. */
  predicate HasLanguage(code: string, s: Symbol)
  {
    match s.property
    case None => false
    case Some(p) =>
      match p.detectedLanguages
      case None => false
      case Some(langs) => |Filter((l: DetectedLanguage) => l.languageCode == Some(code), langs)| > 0
  }

  /** The symbol carries at least one detected language whose code is `code`. */
  ghost predicate TaggedWith(code: string, s: Symbol)
  {
    s.property.Some? && s.property.value.detectedLanguages.Some?
    && exists l :: l in s.property.value.detectedLanguages.value && l.languageCode == Some(code)
  }

  lemma HasLanguageTagged(code: string, s: Symbol)
    ensures HasLanguage(code, s) <==> TaggedWith(code, s)
  {
    if s.property.Some? && s.property.value.detectedLanguages.Some? {
      var langs := s.property.value.detectedLanguages.value;
      var p := (l: DetectedLanguage) => l.languageCode == Some(code);
      if l :| l in langs && l.languageCode == Some(code) {
        FilterCount(p, langs, l);
        assert l in multiset(Filter(p, langs));
      }
      if |Filter(p, langs)| > 0 {
        assert Filter(p, langs)[0] in Filter(p, langs);
      }
    }
  }

  /** `filterLanguageCode`: the symbols that carry the language, in order.
      A symbol without language tags is dropped. */
  function FilterLanguageCode(code: string, symbols: seq<Symbol>): (r: seq<Symbol>)
    ensures forall i :: 0 <= i < |r| ==> TaggedWith(code, r[i])
    ensures forall x :: multiset(r)[x] == if TaggedWith(code, x) then multiset(symbols)[x] else 0
    ensures IsSubseq(r, symbols)
  {
    var p := (s: Symbol) => HasLanguage(code, s);
    var r := Filter(p, symbols);
    assert forall x :: multiset(r)[x] == if TaggedWith(code, x) then multiset(symbols)[x] else 0 by {
      forall x ensures multiset(r)[x] == if TaggedWith(code, x) then multiset(symbols)[x] else 0 {
        FilterCount(p, symbols, x);
        HasLanguageTagged(code, x);
      }
    }
    assert forall i :: 0 <= i < |r| ==> TaggedWith(code, r[i]) by {
      forall i | 0 <= i < |r| ensures TaggedWith(code, r[i]) {
        assert r[i] in r;
        HasLanguageTagged(code, r[i]);
      }
    }
    FilterSubseq(p, symbols);
    r
  }

  /** The language filter leaves nothing exactly when no symbol carries the
      language. */
  lemma FilterLanguageCodeEmpty(code: string, symbols: seq<Symbol>)
    ensures FilterLanguageCode(code, symbols) == [] <==> forall s :: s in symbols ==> !TaggedWith(code, s)
  {
    var results := FilterLanguageCode(code, symbols);
    if s :| s in symbols && TaggedWith(code, s) {
      assert s in multiset(symbols);
      assert s in multiset(results);
    }
    if results != [] {
      assert results[0] in multiset(results);
      assert TaggedWith(code, results[0]);
    }
  }

  /** The `endfix` of `filterSymbols`: a space after SPACE, a line break after
      EOL_SURE_SPACE, nothing otherwise. */
  function Endfix(b: Option<BreakType>): string
  {
    match b
    case Some(Space) => " "
    case Some(EolSureSpace) => "\n"
    case _ => ""
  }

  /** `symbols.map((item) => `${item.text}${endfix}`).join('')` */
  function Rendered(symbols: seq<Symbol>): string
  {
    if symbols == [] then "" else TextOf(symbols[0]) + Endfix(BreakOf(symbols[0])) + Rendered(symbols[1..])
  }

  /** Rendering looks at one symbol at a time: a sequence renders as the
      concatenation of its parts, and one symbol as its text followed by
      " " (SPACE), "\n" (EOL_SURE_SPACE) or nothing. */
  lemma {:induction false} RenderedConcat(a: seq<Symbol>, b: seq<Symbol>)
    ensures Rendered(a + b) == Rendered(a) + Rendered(b)
    ensures |a| == 1 ==>
              Rendered(a) == TextOf(a[0]) +
                (if BreakOf(a[0]) == Some(Space) then " "
                 else if BreakOf(a[0]) == Some(EolSureSpace) then "\n" else "")
  {
    if a == [] {
      assert a + b == b;
    } else {
      assert (a + b)[1..] == a[1..] + b;
      RenderedConcat(a[1..], b);
    }
  }

  /** `filterSymbols`: the trimmed rendering when it is an ASCII word of more
      than two letters, the empty string otherwise. */
  function FilterSymbols(symbols: seq<Symbol>): (r: string)
    ensures r == "" || (|r| >= 3 && MatchesLetters(r))
    ensures r != "" ==> r == Trim(Rendered(symbols))
    ensures r == "" <==> !MatchesLetters(Trim(Rendered(symbols))) || |Trim(Rendered(symbols))| < 3
  {
    var word := Trim(Rendered(symbols));
    if !MatchesLetters(word) || |word| <= 2 then "" else word
  }

  /** The text of one word: '' when its symbols are absent or none carries
      the language, `filterSymbols` of the survivors otherwise. */
  function WordText(code: string, w: Word): (r: string)
    ensures r == "" || (|r| >= 3 && MatchesLetters(r))
    ensures w.symbols.None? ==> r == ""
    ensures w.symbols.Some? && (forall s :: s in w.symbols.value ==> !TaggedWith(code, s)) ==> r == ""
    ensures w.symbols.Some? && (exists s :: s in w.symbols.value && TaggedWith(code, s)) ==>
              r == FilterSymbols(FilterLanguageCode(code, w.symbols.value))
  {
    match w.symbols
    case None => ""
    case Some(syms) =>
      var results := FilterLanguageCode(code, syms);
      FilterLanguageCodeEmpty(code, syms);
      if |results| == 0 then "" else FilterSymbols(results)
  }

  /** `paragraph.words?.map(...).filter((item) => item.length !== 0)` */
  function ParagraphTexts(code: string, p: Paragraph): (r: Option<seq<string>>)
    ensures r.Some? ==> forall t :: t in r.value ==> |t| >= 3 && MatchesLetters(t)
  {
    match p.words
    case None => None
    case Some(ws) =>
      var texts := seq(|ws|, i requires 0 <= i < |ws| => WordText(code, ws[i]));
      Some(Filter((t: string) => |t| != 0, texts))
  }

  /** `paragraphs.map(...)`: the word texts of every paragraph, in order. */
  function AllParagraphTexts(code: string, ps: seq<Paragraph>): (ts: seq<Option<seq<string>>>)
    ensures |ts| == |ps|
    ensures forall i :: 0 <= i < |ps| ==> ts[i] == ParagraphTexts(code, ps[i])
  {
    seq(|ps|, i requires 0 <= i < |ps| => ParagraphTexts(code, ps[i]))
  }

  /** `.filter((item) => item?.length !== 0)`: a paragraph whose words are all
      gone is dropped, one whose `words` field is absent is kept; the kept
      lists keep their order and every occurrence. */
  function KeptParagraphs(code: string, ps: seq<Paragraph>): (ws: seq<Option<seq<string>>>)
    ensures forall w :: w in ws ==> w.None? || w.value != []
    ensures IsSubseq(ws, AllParagraphTexts(code, ps))
    ensures forall w :: multiset(ws)[w] ==
              if w.None? || w.value != [] then multiset(AllParagraphTexts(code, ps))[w] else 0
  {
    var keep := (item: Option<seq<string>>) => item.None? || |item.value| != 0;
    var all := AllParagraphTexts(code, ps);
    FilterSubseq(keep, all);
    assert forall w :: multiset(Filter(keep, all))[w] ==
             if w.None? || w.value != [] then multiset(all)[w] else 0 by {
      forall w {
        FilterCount(keep, all, w);
      }
    }
    Filter(keep, all)
  }

  /** The words of the present paragraph lists, paragraph by paragraph. */
  function Present(ws: seq<Option<seq<string>>>): seq<string>
  {
    if ws == [] then [] else (if ws[0].Some? then ws[0].value else []) + Present(ws[1..])
  }

  /** How many paragraph lists are absent. */
  function Absent(ws: seq<Option<seq<string>>>): nat
  {
    if ws == [] then 0 else (if ws[0].None? then 1 else 0) + Absent(ws[1..])
  }

  /** The defined entries of an array that may hold `undefined`, in order. */
  function Defined(xs: seq<Option<string>>): seq<string>
  {
    if xs == [] then [] else (if xs[0].Some? then [xs[0].value] else []) + Defined(xs[1..])
  }

  /** How many entries are `undefined`. */
  function Undefineds(xs: seq<Option<string>>): nat
  {
    if xs == [] then 0 else (if xs[0].None? then 1 else 0) + Undefineds(xs[1..])
  }

  lemma {:induction false} DefinedConcat(a: seq<Option<string>>, b: seq<Option<string>>)
    ensures Defined(a + b) == Defined(a) + Defined(b)
  {
    if a == [] {
      assert a + b == b;
    } else {
      var c := a + b;
      assert c[0] == a[0];
      assert c[1..] == a[1..] + b;
      DefinedConcat(a[1..], b);
    }
  }

  lemma {:induction false} UndefinedsConcat(a: seq<Option<string>>, b: seq<Option<string>>)
    ensures Undefineds(a + b) == Undefineds(a) + Undefineds(b)
  {
    if a == [] {
      assert a + b == b;
    } else {
      var c := a + b;
      assert c[0] == a[0];
      assert c[1..] == a[1..] + b;
      UndefinedsConcat(a[1..], b);
    }
  }

  /** What `[...].concat(next)` appends. */
  function ConcatArg(next: Option<seq<string>>): seq<Option<string>>
  {
    match next
    case None => [None]
    case Some(xs) => seq(|xs|, i requires 0 <= i < |xs| => Some(xs[i]))
  }

  /** `concat` spreads an array argument, so its words are appended, and
      appends `undefined` as one element. */
  lemma ConcatArgSpec(next: Option<seq<string>>)
    ensures Defined(ConcatArg(next)) == (if next.Some? then next.value else [])
    ensures Undefineds(ConcatArg(next)) == if next.None? then 1 else 0
  {
    if next.Some? {
      LiftedDefined(next.value);
    }
  }

  lemma {:induction false} LiftedDefined(xs: seq<string>)
    ensures Defined(seq(|xs|, i requires 0 <= i < |xs| => Some(xs[i]))) == xs
    ensures Undefineds(seq(|xs|, i requires 0 <= i < |xs| => Some(xs[i]))) == 0
  {
    var r := seq(|xs|, i requires 0 <= i < |xs| => Some(xs[i]));
    if xs != [] {
      LiftedDefined(xs[1..]);
      assert r[1..] == seq(|xs[1..]|, i requires 0 <= i < |xs[1..]| => Some(xs[1..][i]));
      assert xs == [xs[0]] + xs[1..];
    }
  }

  /** The fold `acc = acc.concat(next)` over the remaining paragraph lists. */
  function ConcatFrom(acc: seq<Option<string>>, rest: seq<Option<seq<string>>>): seq<Option<string>>
    decreases |rest|
  {
    if rest == [] then acc else ConcatFrom(acc + ConcatArg(rest[0]), rest[1..])
  }

  /** What each paragraph list contributes to the fold, in order. */
  function ConcatArgs(ws: seq<Option<seq<string>>>): (args: seq<seq<Option<string>>>)
    ensures |args| == |ws|
    ensures forall i :: 0 <= i < |ws| ==> args[i] == ConcatArg(ws[i])
  {
    seq(|ws|, i requires 0 <= i < |ws| => ConcatArg(ws[i]))
  }

  /** The contributions of a non-empty list are those of its head, then
      those of its tail. */
  lemma ConcatArgsCons(ws: seq<Option<seq<string>>>)
    requires ws != []
    ensures Flatten(ConcatArgs(ws)) == ConcatArg(ws[0]) + Flatten(ConcatArgs(ws[1..]))
  {
    assert ConcatArgs(ws)[1..] == ConcatArgs(ws[1..]);
  }

  /** One step of the fold. */
  lemma ConcatFromStep(acc: seq<Option<string>>, rest: seq<Option<seq<string>>>)
    requires rest != []
    ensures ConcatFrom(acc, rest) == ConcatFrom(acc + ConcatArg(rest[0]), rest[1..])
  {
  }

  /** The fold in closed form: each list's contribution appended in turn, so
      the words of a list and the `undefined` of an absent one keep the
      position of their list. */
  lemma {:induction false} ConcatFromClosed(acc: seq<Option<string>>, rest: seq<Option<seq<string>>>)
    ensures ConcatFrom(acc, rest) == acc + Flatten(ConcatArgs(rest))
    decreases |rest|
  {
    if rest == [] {
      assert ConcatArgs(rest) == [];
    } else {
      var arg := ConcatArg(rest[0]);
      var later := Flatten(ConcatArgs(rest[1..]));
      assert ConcatFrom(acc, rest) == (acc + arg) + later by {
        ConcatFromStep(acc, rest);
        ConcatFromClosed(acc + arg, rest[1..]);
      }
      assert Flatten(ConcatArgs(rest)) == arg + later by {
        ConcatArgsCons(rest);
      }
      assert (acc + arg) + later == acc + (arg + later);
    }
  }

  /** The fold appends the words of the present lists in order. */
  lemma {:induction false} ConcatFromDefined(acc: seq<Option<string>>, rest: seq<Option<seq<string>>>)
    ensures Defined(ConcatFrom(acc, rest)) == Defined(acc) + Present(rest)
    decreases |rest|
  {
    if rest == [] {
      assert Present(rest) == [];
    } else {
      var arg := ConcatArg(rest[0]);
      var next := acc + arg;
      var a, b, c := Defined(acc), Defined(arg), Present(rest[1..]);
      assert Defined(ConcatFrom(acc, rest)) == Defined(next) + c by {
        assert ConcatFrom(acc, rest) == ConcatFrom(next, rest[1..]);
        ConcatFromDefined(next, rest[1..]);
      }
      assert Defined(next) == a + b by {
        DefinedConcat(acc, arg);
      }
      assert Present(rest) == b + c by {
        ConcatArgSpec(rest[0]);
        PresentAbsentCons(rest);
      }
      assert a + (b + c) == (a + b) + c;
    }
  }

  /** The fold appends one `undefined` per absent list. */
  lemma {:induction false} ConcatFromUndefineds(acc: seq<Option<string>>, rest: seq<Option<seq<string>>>)
    ensures Undefineds(ConcatFrom(acc, rest)) == Undefineds(acc) + Absent(rest)
    decreases |rest|
  {
    if rest != [] {
      var arg := ConcatArg(rest[0]);
      var next := acc + arg;
      assert ConcatFrom(acc, rest) == ConcatFrom(next, rest[1..]);
      ConcatFromUndefineds(next, rest[1..]);
      UndefinedsConcat(acc, arg);
      ConcatArgSpec(rest[0]);
      PresentAbsentCons(rest);
    }
  }

  lemma PresentAbsentCons(rest: seq<Option<seq<string>>>)
    requires rest != []
    ensures Present(rest) == (if rest[0].Some? then rest[0].value else []) + Present(rest[1..])
    ensures Absent(rest) == (if rest[0].None? then 1 else 0) + Absent(rest[1..])
  {
  }

  /** `words.reduce((prev, next) => prev.concat(next))` with no initial value:
      the first list is the accumulator. When it is `undefined` a single
      element is returned as is and a longer array throws. */
  function ReduceConcat(ws: seq<Option<seq<string>>>): (r: Result<Option<seq<Option<string>>>>)
    requires ws != []
    ensures ws[0].None? ==> r == if |ws| == 1 then Ok(None) else TypeError
    ensures ws[0].Some? ==> r == Ok(Some(Flatten(ConcatArgs(ws))))
    ensures ws[0].Some? ==>
              (r.Ok? && r.value.Some?
               && Defined(r.value.value) == Present(ws) && Undefineds(r.value.value) == Absent(ws))
  {
    match ws[0]
    case None => if |ws| == 1 then Ok(None) else TypeError
    case Some(first) =>
      ConcatFromClosed(ConcatArg(ws[0]), ws[1..]);
      ConcatArgsCons(ws);
      ConcatFromDefined(ConcatArg(ws[0]), ws[1..]);
      ConcatFromUndefineds(ConcatArg(ws[0]), ws[1..]);
      ConcatArgSpec(ws[0]);
      PresentAbsentCons(ws);
      Ok(Some(ConcatFrom(ConcatArg(ws[0]), ws[1..])))
  }

  /** An absent paragraph list between two present ones leaves its
      `undefined` between their words. */
  lemma ReduceConcatExample()
    ensures ReduceConcat([Some(["abc"]), None, Some(["def"])]) == Ok(Some([Some("abc"), None, Some("def")]))
  {
    var ws: seq<Option<seq<string>>> := [Some(["abc"]), None, Some(["def"])];
    var a, b, c := ConcatArg(ws[0]), ConcatArg(ws[1]), ConcatArg(ws[2]);
    assert a == [Some("abc")];
    assert b == [None];
    assert c == [Some("def")];
    ConcatArgsCons(ws);
    ConcatArgsCons(ws[1..]);
    ConcatArgsCons(ws[2..]);
    assert Flatten(ConcatArgs(ws[3..])) == [] by {
      assert ws[3..] == [];
    }
    assert ws[1..][1..] == ws[2..] && ws[2..][1..] == ws[3..];
    assert Flatten(ConcatArgs(ws)) == a + (b + (c + []));
    assert a + (b + (c + [])) == [Some("abc"), None, Some("def")];
    assert ReduceConcat(ws) == Ok(Some(Flatten(ConcatArgs(ws))));
  }

  /** `getInlineWords` of src/utils.ts. */
  function GetInlineWords(code: string, block: Block): (r: Result<Option<seq<Option<string>>>>)
    ensures block.paragraphs.None? ==> r == Ok(None)
    ensures block.paragraphs.Some? ==>
      var ws := KeptParagraphs(code, block.paragraphs.value);
      (ws == [] ==> r == Ok(None))
      && (ws != [] && ws[0].None? ==> r == if |ws| == 1 then Ok(None) else TypeError)
      && (ws != [] && ws[0].Some? ==> r == Ok(Some(Flatten(ConcatArgs(ws)))))
      && (ws != [] && ws[0].Some? ==>
            (r.Ok? && r.value.Some?
             && Defined(r.value.value) == Present(ws) && Undefineds(r.value.value) == Absent(ws)))
  {
    match block.paragraphs
    case None => Ok(None)
    case Some(ps) =>
      var words := KeptParagraphs(code, ps);
      if |words| == 0 then Ok(None) else ReduceConcat(words)
  }

  lemma {:induction false} PresentMembers(ws: seq<Option<seq<string>>>, t: string)
    requires t in Present(ws)
    ensures exists i :: 0 <= i < |ws| && ws[i].Some? && t in ws[i].value
  {
    if ws[0].Some? && t in ws[0].value {
    } else {
      PresentMembers(ws[1..], t);
      var i :| 0 <= i < |ws[1..]| && ws[1..][i].Some? && t in ws[1..][i].value;
      assert ws[i + 1] == ws[1..][i];
    }
  }

  /** Every word of a kept paragraph list is an ASCII word of three or more
      letters. */
  lemma KeptAreLetters(code: string, ps: seq<Paragraph>, w: Option<seq<string>>)
    requires w in KeptParagraphs(code, ps) && w.Some?
    ensures forall t :: t in w.value ==> |t| >= 3 && MatchesLetters(t)
  {
    var all := seq(|ps|, i requires 0 <= i < |ps| => ParagraphTexts(code, ps[i]));
    assert w in all;
    var j :| 0 <= j < |all| && all[j] == w;
    assert w == ParagraphTexts(code, ps[j]);
  }

  /** Every word `getInlineWords` returns is an ASCII word of at least three
      letters; in particular none is empty. */
  lemma InlineWordsAreLetters(code: string, block: Block)
    requires GetInlineWords(code, block).Ok? && GetInlineWords(code, block).value.Some?
    ensures forall t :: t in Defined(GetInlineWords(code, block).value.value) ==> |t| >= 3 && MatchesLetters(t)
  {
    var r := GetInlineWords(code, block);
    var ps := block.paragraphs.value;
    var ws := KeptParagraphs(code, ps);
    assert ws != [] && ws[0].Some?;
    assert Defined(r.value.value) == Present(ws);
    forall t | t in Present(ws) ensures |t| >= 3 && MatchesLetters(t) {
      PresentMembers(ws, t);
      var i :| 0 <= i < |ws| && ws[i].Some? && t in ws[i].value;
      KeptAreLetters(code, ps, ws[i]);
    }
  }
}
