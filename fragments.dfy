/** Positioned text fragments and the lodash operations the pipeline applies
    to them: `groupBy('y')` followed by `map`, and `orderBy('x')`. */
module Fragments {
  import opened Seqs

  /** One positioned text fragment `{ x, y, word }`: the anchor is the top-left
      corner of the fragment's bounding box. */
  datatype SymbolLine = SymbolLine(x: int, y: int, word: string)

  /** `fs.map((v) => v.word).join('')` */
  function Words(fs: seq<SymbolLine>): string
  {
    if fs == [] then "" else fs[0].word + Words(fs[1..])
  }

  /** Joining is a homomorphism: the text of a concatenation is the
      concatenation of the texts. */
  lemma {:induction false} WordsConcat(a: seq<SymbolLine>, b: seq<SymbolLine>)
    ensures Words(a + b) == Words(a) + Words(b)
  {
    if a == [] {
      assert a + b == b;
    } else {
      assert (a + b)[1..] == a[1..] + b;
      WordsConcat(a[1..], b);
    }
  }

  /** The fragments whose y is `k`, in input order. */
  function FilterY(s: seq<SymbolLine>, k: int): seq<SymbolLine>
  {
    Filter((f: SymbolLine) => f.y == k, s)
  }

  /** `{ ...item, y }` for every member of a group. */
  function WithY(g: seq<SymbolLine>, y: int): (r: seq<SymbolLine>)
  {
    seq(|g|, i requires 0 <= i < |g| => g[i].(y := y))
  }

  predicate StrictlyIncreasing(ks: seq<int>)
  {
    forall i, j :: 0 <= i < j < |ks| ==> ks[i] < ks[j]
  }

  function InsertKey(k: int, ks: seq<int>): (r: seq<int>)
    requires StrictlyIncreasing(ks)
    ensures StrictlyIncreasing(r)
    ensures forall j :: j in r <==> j == k || j in ks
  {
    if ks == [] then [k]
    else if k < ks[0] then [k] + ks
    else if k == ks[0] then ks
    else
      var rest := InsertKey(k, ks[1..]);
      assert forall i :: 0 <= i < |rest| ==> ks[0] < rest[i] by {
        forall i | 0 <= i < |rest| ensures ks[0] < rest[i] {
          assert rest[i] in rest;
          if rest[i] != k {
            var m :| 0 <= m < |ks[1..]| && ks[1..][m] == rest[i];
            assert ks[m + 1] == rest[i];
          }
        }
      }
      [ks[0]] + rest
  }

  /** The keys of `groupBy('y')` in the order `map` visits them: lodash builds
      an object keyed by y, and integer keys are enumerated in ascending order.
      So: the distinct y values of the input, ascending. */
  function Keys(s: seq<SymbolLine>): (ks: seq<int>)
    ensures StrictlyIncreasing(ks)
    ensures forall k :: k in ks <==> exists i :: 0 <= i < |s| && s[i].y == k
  {
    if s == [] then []
    else
      var rest := Keys(s[1..]);
      assert forall i :: 0 < i < |s| ==> s[i] == s[1..][i - 1];
      InsertKey(s[0].y, rest)
  }

  lemma FilterYNonEmpty(s: seq<SymbolLine>, k: int)
    requires exists i :: 0 <= i < |s| && s[i].y == k
    ensures FilterY(s, k) != []
  {
    var j :| 0 <= j < |s| && s[j].y == k;
    assert s[j] in multiset(s);
    FilterCount((f: SymbolLine) => f.y == k, s, s[j]);
  }

  /** One group per key, in key order. */
  function GroupsFor(s: seq<SymbolLine>, ks: seq<int>): seq<seq<SymbolLine>>
  {
    seq(|ks|, i requires 0 <= i < |ks| => FilterY(s, ks[i]))
  }

  /** `_.chain(s).groupBy('y').map((value) => value)`: one non-empty group per
      distinct y, ascending by y; a group holds exactly the fragments with that
      y, in input order. */
  function GroupByY(s: seq<SymbolLine>): (gs: seq<seq<SymbolLine>>)
    ensures |gs| == |Keys(s)|
    ensures forall i :: 0 <= i < |gs| ==> gs[i] == FilterY(s, Keys(s)[i])
    ensures forall i :: 0 <= i < |gs| ==> gs[i] != [] && gs[i][0].y == Keys(s)[i]
    ensures forall i, f :: 0 <= i < |gs| && f in gs[i] ==> f.y == Keys(s)[i]
  {
    var ks := Keys(s);
    var gs := GroupsFor(s, ks);
    assert forall i :: 0 <= i < |gs| ==> gs[i] != [] && gs[i][0].y == ks[i] by {
      forall i | 0 <= i < |gs| ensures gs[i] != [] && gs[i][0].y == ks[i] {
        assert ks[i] in ks;
        FilterYNonEmpty(s, ks[i]);
        assert gs[i][0] in gs[i];
      }
    }
    gs
  }

  lemma FilterYOfGroup(s: seq<SymbolLine>, k: int, j: int)
    ensures FilterY(FilterY(s, k), j) == if j == k then FilterY(s, k) else []
  {
    var g := FilterY(s, k);
    assert forall i :: 0 <= i < |g| ==> g[i] in g;
    if j == k {
      FilterAll((f: SymbolLine) => f.y == j, g);
    } else {
      FilterNone((f: SymbolLine) => f.y == j, g);
    }
  }

  lemma {:induction false} FilterYOfGroupsFor(s: seq<SymbolLine>, ks: seq<int>, k: int)
    requires StrictlyIncreasing(ks)
    ensures FilterY(Flatten(GroupsFor(s, ks)), k) == if k in ks then FilterY(s, k) else []
  {
    if ks != [] {
      var gs := GroupsFor(s, ks);
      assert gs[1..] == GroupsFor(s, ks[1..]);
      FilterYOfGroupsFor(s, ks[1..], k);
      FilterConcat((f: SymbolLine) => f.y == k, gs[0], Flatten(gs[1..]));
      FilterYOfGroup(s, ks[0], k);
      assert k in ks <==> k == ks[0] || k in ks[1..];
      assert k == ks[0] ==> k !in ks[1..];
    }
  }

  /** Grouping and then concatenating the groups keeps every y-class intact:
      the fragments with a given y appear in their input order. */
  lemma GroupedFilterY(s: seq<SymbolLine>, k: int)
    ensures FilterY(Flatten(GroupByY(s)), k) == FilterY(s, k)
  {
    FilterYOfGroupsFor(s, Keys(s), k);
    if k !in Keys(s) {
      FilterNone((f: SymbolLine) => f.y == k, s);
    }
  }

  /** Grouping and then concatenating the groups loses and invents nothing. */
  lemma GroupedPermutation(s: seq<SymbolLine>)
    ensures multiset(Flatten(GroupByY(s))) == multiset(s)
  {
    var t := Flatten(GroupByY(s));
    forall f ensures multiset(t)[f] == multiset(s)[f] {
      GroupedFilterY(s, f.y);
      FilterCount((g: SymbolLine) => g.y == f.y, t, f);
      FilterCount((g: SymbolLine) => g.y == f.y, s, f);
    }
  }

  predicate SortedByY(s: seq<SymbolLine>)
  {
    forall i, j :: 0 <= i < j < |s| ==> s[i].y <= s[j].y
  }

  lemma {:induction false} GroupsForSorted(s: seq<SymbolLine>, ks: seq<int>)
    requires StrictlyIncreasing(ks)
    ensures SortedByY(Flatten(GroupsFor(s, ks)))
    ensures forall f :: f in Flatten(GroupsFor(s, ks)) ==> f.y in ks
  {
    if ks != [] {
      var gs := GroupsFor(s, ks);
      assert gs[1..] == GroupsFor(s, ks[1..]);
      GroupsForSorted(s, ks[1..]);
      var a, b := gs[0], Flatten(gs[1..]);
      assert Flatten(gs) == a + b;
      forall f | f in b ensures ks[0] < f.y {
        assert f.y in ks[1..];
      }
      forall i, j | 0 <= i < j < |a + b| ensures (a + b)[i].y <= (a + b)[j].y {
        if j < |a| {
          assert a[i] in a && a[j] in a;
        } else if i >= |a| {
          assert (a + b)[i] == b[i - |a|] && (a + b)[j] == b[j - |a|];
        } else {
          assert a[i] in a && b[j - |a|] in b;
        }
      }
      forall f | f in Flatten(gs) ensures f.y in ks {
        assert f in a || f in b;
      }
    }
  }

  /** Concatenating the groups sorts the fragments by y. */
  lemma GroupedSortedByY(s: seq<SymbolLine>)
    ensures SortedByY(Flatten(GroupByY(s)))
  {
    GroupsForSorted(s, Keys(s));
  }

  lemma FilterYCons(a: seq<SymbolLine>, k: int)
    requires a != []
    ensures FilterY(a, k) == (if a[0].y == k then [a[0]] else []) + FilterY(a[1..], k)
  {
  }

  lemma SortedHeadsAgree(a: seq<SymbolLine>, b: seq<SymbolLine>)
    requires a != [] && b != []
    requires SortedByY(a) && SortedByY(b)
    requires forall k :: FilterY(a, k) == FilterY(b, k)
    ensures a[0] == b[0]
  {
    var ka, kb := a[0].y, b[0].y;
    FilterYCons(a, ka);
    FilterYCons(b, kb);
    assert b[0] in FilterY(a, kb);
    var i :| 0 <= i < |a| && a[i] == b[0];
    assert a[0] in FilterY(b, ka);
    var j :| 0 <= j < |b| && b[j] == a[0];
    assert ka == kb;
    assert a[0] == FilterY(a, ka)[0] == FilterY(b, kb)[0] == b[0];
  }

  lemma TailFiltersAgree(a: seq<SymbolLine>, b: seq<SymbolLine>, k: int)
    requires a != [] && b != [] && a[0] == b[0]
    requires FilterY(a, k) == FilterY(b, k)
    ensures FilterY(a[1..], k) == FilterY(b[1..], k)
  {
    FilterYCons(a, k);
    FilterYCons(b, k);
    var head := if a[0].y == k then [a[0]] else [];
    assert FilterY(a[1..], k) == FilterY(a, k)[|head|..];
    assert FilterY(b[1..], k) == FilterY(b, k)[|head|..];
  }

  /** A sequence sorted by y is determined by its y-classes. */
  lemma {:induction false} SortedByYUnique(a: seq<SymbolLine>, b: seq<SymbolLine>)
    requires SortedByY(a) && SortedByY(b)
    requires forall k :: FilterY(a, k) == FilterY(b, k)
    ensures a == b
    decreases |a| + |b|
  {
    if a != [] && b != [] {
      SortedHeadsAgree(a, b);
      forall k ensures FilterY(a[1..], k) == FilterY(b[1..], k) {
        TailFiltersAgree(a, b, k);
      }
      SortedByYUnique(a[1..], b[1..]);
      assert a == [a[0]] + a[1..] && b == [b[0]] + b[1..];
    } else if a != [] {
      FilterYCons(a, a[0].y);
    } else if b != [] {
      FilterYCons(b, b[0].y);
    }
  }

  /** Grouping a sequence that is already sorted by y and concatenating the
      groups gives back the same sequence. */
  lemma GroupedSortedIdentity(s: seq<SymbolLine>)
    requires SortedByY(s)
    ensures Flatten(GroupByY(s)) == s
  {
    GroupedSortedByY(s);
    forall k ensures FilterY(Flatten(GroupByY(s)), k) == FilterY(s, k) {
      GroupedFilterY(s, k);
    }
    SortedByYUnique(Flatten(GroupByY(s)), s);
  }

  predicate SortedByX(s: seq<SymbolLine>)
  {
    forall i, j :: 0 <= i < j < |s| ==> s[i].x <= s[j].x
  }

  /** The fragments whose x is `v`, in order. */
  function FilterXEq(s: seq<SymbolLine>, v: int): seq<SymbolLine>
  {
    Filter((f: SymbolLine) => f.x == v, s)
  }

  /** Insert `e` before the first element whose x is not smaller. */
  function InsertByX(e: SymbolLine, t: seq<SymbolLine>): (r: seq<SymbolLine>)
    requires SortedByX(t)
    ensures forall f :: f in r <==> f == e || f in t
    ensures SortedByX(r)
    ensures multiset(r) == multiset(t) + multiset{e}
  {
    if t == [] || e.x <= t[0].x then [e] + t
    else
      var rest := InsertByX(e, t[1..]);
      HeadBelowInserted(e, t, rest);
      SortedByXCons(t[0], rest);
      assert t == [t[0]] + t[1..];
      [t[0]] + rest
  }

  /** A fragment at or left of every fragment of a sorted sequence can be
      put in front of it. */
  lemma SortedByXCons(h: SymbolLine, s: seq<SymbolLine>)
    requires SortedByX(s)
    requires forall i :: 0 <= i < |s| ==> h.x <= s[i].x
    ensures SortedByX([h] + s)
  {
  }

  /** The head of a sorted sequence is at or left of everything inserted
      after it. */
  lemma HeadBelowInserted(e: SymbolLine, t: seq<SymbolLine>, rest: seq<SymbolLine>)
    requires SortedByX(t) && t != [] && t[0].x < e.x
    requires forall f :: f in rest <==> f == e || f in t[1..]
    ensures forall i :: 0 <= i < |rest| ==> t[0].x <= rest[i].x
  {
    forall i | 0 <= i < |rest| ensures t[0].x <= rest[i].x {
      assert rest[i] in rest;
      if rest[i] != e {
        var m :| 0 <= m < |t[1..]| && t[1..][m] == rest[i];
        assert t[m + 1] == rest[i];
      }
    }
  }

  lemma {:induction false} InsertByXStable(e: SymbolLine, t: seq<SymbolLine>, v: int)
    requires SortedByX(t)
    ensures FilterXEq(InsertByX(e, t), v) == FilterXEq([e] + t, v)
  {
    var p := (f: SymbolLine) => f.x == v;
    if t != [] && e.x > t[0].x {
      var t' := t[1..];
      var ins := InsertByX(e, t');
      assert InsertByX(e, t) == [t[0]] + ins;
      assert t == [t[0]] + t';
      InsertByXStable(e, t', v);
      FilterConcat(p, [t[0]], ins);
      FilterConcat(p, [e], t');
      FilterConcat(p, [t[0]], t');
      FilterConcat(p, [e], t);
      FilterSingleton(p, t[0]);
      FilterSingleton(p, e);
      // At most one of e and t[0] has x == v, so their order does not matter.
      if e.x == v {
        assert Filter(p, [t[0]]) == [];
      } else {
        assert Filter(p, [e]) == [];
      }
    }
  }

  /** lodash `orderBy(s, 'x')`, a stable sort by ascending x. */
  function SortByX(s: seq<SymbolLine>): (r: seq<SymbolLine>)
    ensures SortedByX(r)
    ensures multiset(r) == multiset(s)
  {
    if s == [] then []
    else
      assert s == [s[0]] + s[1..];
      InsertByX(s[0], SortByX(s[1..]))
  }

  /** `orderBy` is stable: fragments with equal x keep their relative order. */
  lemma {:induction false} SortByXStable(s: seq<SymbolLine>, v: int)
    ensures FilterXEq(SortByX(s), v) == FilterXEq(s, v)
  {
    if s != [] {
      var p := (f: SymbolLine) => f.x == v;
      SortByXStable(s[1..], v);
      InsertByXStable(s[0], SortByX(s[1..]), v);
      FilterConcat(p, [s[0]], SortByX(s[1..]));
      FilterConcat(p, [s[0]], s[1..]);
      assert s == [s[0]] + s[1..];
    }
  }

  /** Every fragment moved to row `f(y)`, everything else kept. */
  function MapY(f: int -> int, s: seq<SymbolLine>): (r: seq<SymbolLine>)
    ensures |r| == |s|
  {
    seq(|s|, i requires 0 <= i < |s| => s[i].(y := f(s[i].y)))
  }

  /** The fragments whose row `f` sends to `k`, in order. */
  function Preimage(f: int -> int, s: seq<SymbolLine>, k: int): seq<SymbolLine>
  {
    Filter((g: SymbolLine) => f(g.y) == k, s)
  }

  ghost predicate Monotone(f: int -> int)
  {
    forall a, b :: a <= b ==> f(a) <= f(b)
  }

  ghost predicate Idempotent(f: int -> int)
  {
    forall a :: f(f(a)) == f(a)
  }

  /** The groups of `groupBy('y')`, each moved to row `f(key)`. */
  function RekeyedGroups(f: int -> int, s: seq<SymbolLine>): (ws: seq<seq<SymbolLine>>)
    ensures |ws| == |GroupByY(s)|
    ensures forall i :: 0 <= i < |ws| ==> ws[i] == WithY(GroupByY(s)[i], f(Keys(s)[i]))
  {
    var gs := GroupByY(s);
    var ks := Keys(s);
    seq(|gs|, i requires 0 <= i < |gs| => WithY(gs[i], f(ks[i])))
  }

  /** `groupBy('y')`, each group moved to row `f(key)`, groups concatenated. */
  function Rekey(f: int -> int, s: seq<SymbolLine>): seq<SymbolLine>
  {
    Flatten(RekeyedGroups(f, s))
  }

  lemma {:induction false} RekeyGroups(f: int -> int, ws: seq<seq<SymbolLine>>, gs: seq<seq<SymbolLine>>, ks: seq<int>)
    requires |ws| == |gs| == |ks|
    requires forall i :: 0 <= i < |ws| ==> ws[i] == WithY(gs[i], f(ks[i]))
    requires forall i, g :: 0 <= i < |gs| && g in gs[i] ==> g.y == ks[i]
    ensures Flatten(ws) == MapY(f, Flatten(gs))
  {
    if gs != [] {
      RekeyGroups(f, ws[1..], gs[1..], ks[1..]);
      assert ws[0] == MapY(f, gs[0]) by {
        forall i | 0 <= i < |gs[0]| ensures gs[0][i].y == ks[0] {
          assert gs[0][i] in gs[0];
        }
      }
      assert MapY(f, gs[0] + Flatten(gs[1..])) == MapY(f, gs[0]) + MapY(f, Flatten(gs[1..]));
    }
  }

  /** Moving rows group by group is moving each fragment of the y-ordered
      sequence. */
  lemma RekeyPointwise(f: int -> int, s: seq<SymbolLine>)
    ensures Rekey(f, s) == MapY(f, Flatten(GroupByY(s)))
  {
    RekeyGroups(f, RekeyedGroups(f, s), GroupByY(s), Keys(s));
  }

  lemma MapYSorted(f: int -> int, s: seq<SymbolLine>)
    requires Monotone(f)
    requires SortedByY(s)
    ensures SortedByY(MapY(f, s))
  {
  }

  /** Moved rows: as many fragments as the input, each one of the input with
      only its y changed to `f(y)`, and in row order when `f` is monotone. */
  lemma RekeySpec(f: int -> int, s: seq<SymbolLine>)
    ensures |Rekey(f, s)| == |s|
    ensures Monotone(f) ==> SortedByY(Rekey(f, s))
    ensures forall h :: h in Rekey(f, s) <==> exists g :: g in s && h == g.(y := f(g.y))
  {
    var u := Flatten(GroupByY(s));
    assert Rekey(f, s) == MapY(f, u) by {
      RekeyPointwise(f, s);
    }
    assert multiset(u) == multiset(s) by {
      GroupedPermutation(s);
    }
    assert |u| == |s| by {
      assert |multiset(u)| == |multiset(s)|;
    }
    if Monotone(f) {
      assert SortedByY(u) by {
        GroupedSortedByY(s);
      }
      MapYSorted(f, u);
    }
    MapYMembers(f, u, s);
  }

  /** Moving the rows of a permutation of `s` gives every fragment of `s`
      with its row moved, and nothing else. */
  lemma MapYMembers(f: int -> int, u: seq<SymbolLine>, s: seq<SymbolLine>)
    requires multiset(u) == multiset(s)
    ensures forall h :: h in MapY(f, u) <==> exists g :: g in s && h == g.(y := f(g.y))
  {
    var t := MapY(f, u);
    forall h ensures h in t <==> exists g :: g in s && h == g.(y := f(g.y)) {
      if h in t {
        var i :| 0 <= i < |t| && t[i] == h;
        assert u[i] in multiset(s);
      }
      if g :| g in s && h == g.(y := f(g.y)) {
        assert g in multiset(u);
        var i :| 0 <= i < |u| && u[i] == g;
        assert t[i] == h;
      }
    }
  }

  /** Moving rows twice by a monotone, idempotent map is moving them once. */
  lemma RekeyIdempotent(f: int -> int, s: seq<SymbolLine>)
    requires Monotone(f) && Idempotent(f)
    ensures Rekey(f, Rekey(f, s)) == Rekey(f, s)
  {
    var u := Flatten(GroupByY(s));
    var t := Rekey(f, s);
    RekeyPointwise(f, s);
    GroupedSortedByY(s);
    MapYSorted(f, u);
    RekeyPointwise(f, t);
    GroupedSortedIdentity(t);
    assert MapY(f, t) == t;
  }

  lemma {:induction false} FilterYMapY(f: int -> int, s: seq<SymbolLine>, k: int)
    ensures FilterY(MapY(f, s), k) == MapY(f, Preimage(f, s, k))
  {
    if s != [] {
      FilterYMapY(f, s[1..], k);
      assert MapY(f, s)[1..] == MapY(f, s[1..]);
      FilterYCons(MapY(f, s), k);
      var head := if f(s[0].y) == k then [s[0]] else [];
      assert Preimage(f, s, k) == head + Preimage(f, s[1..], k);
      assert MapY(f, head + Preimage(f, s[1..], k)) == MapY(f, head) + MapY(f, Preimage(f, s[1..], k));
    }
  }

  /** When `f` moves no fragment of `s` into or out of row `k`, the
      fragments it sends to `k` are those already there. */
  lemma PreimageIsFilterY(f: int -> int, s: seq<SymbolLine>, k: int)
    requires forall i :: 0 <= i < |s| ==> (f(s[i].y) == k <==> s[i].y == k)
    ensures Preimage(f, s, k) == FilterY(s, k)
  {
    FilterAgree((g: SymbolLine) => f(g.y) == k, (g: SymbolLine) => g.y == k, s);
  }

  /** The keys after moving are the images of the keys before. */
  lemma RekeyKeys(f: int -> int, s: seq<SymbolLine>, k: int)
    ensures k in Keys(Rekey(f, s)) <==> exists i :: 0 <= i < |s| && f(s[i].y) == k
  {
    var t := Rekey(f, s);
    RekeySpec(f, s);
    if k in Keys(t) {
      var j :| 0 <= j < |t| && t[j].y == k;
      assert t[j] in t;
      var g :| g in s && t[j] == g.(y := f(g.y));
      var i :| 0 <= i < |s| && s[i] == g;
    }
    if i :| 0 <= i < |s| && f(s[i].y) == k {
      assert s[i] in s;
      var h := s[i].(y := f(s[i].y));
      assert h in t;
      var j :| 0 <= j < |t| && t[j] == h;
    }
  }

  /** The row `k` after moving holds the fragments `f` sends to `k`, in
      ascending original y and then input order. */
  lemma RekeyRow(f: int -> int, s: seq<SymbolLine>, k: int)
    ensures FilterY(Rekey(f, s), k) == MapY(f, Preimage(f, Flatten(GroupByY(s)), k))
  {
    RekeyPointwise(f, s);
    FilterYMapY(f, Flatten(GroupByY(s)), k);
  }
}
