/** Generic sequence operations behind the source's Array.prototype chains. */
module Seqs {
  import opened Results

  /** `b` contains the elements of `a` in the same order, possibly with others between. */
  ghost predicate IsSubseq<T>(a: seq<T>, b: seq<T>)
    decreases |b|
  {
    if a == [] then true
    else if b == [] then false
    else if a[0] == b[0] then IsSubseq(a[1..], b[1..])
    else IsSubseq(a, b[1..])
  }

  /** Array.prototype.filter: the elements that satisfy `p`, in their original order. */
  function Filter<T(!new)>(p: T -> bool, s: seq<T>): (r: seq<T>)
    ensures |r| <= |s|
    ensures forall x :: x in r ==> x in s && p(x)
  {
    if s == [] then []
    else
      var rest := Filter(p, s[1..]);
      if p(s[0]) then [s[0]] + rest else rest
  }

  /** A filter keeps every occurrence of a passing element and no occurrence
      of a failing one. */
  lemma {:induction false} FilterCount<T(!new)>(p: T -> bool, s: seq<T>, x: T)
    ensures multiset(Filter(p, s))[x] == if p(x) then multiset(s)[x] else 0
  {
    if s != [] {
      FilterCount(p, s[1..], x);
      assert s == [s[0]] + s[1..];
    }
  }

  /** A filter keeps the survivors in their original order. */
  lemma {:induction false} FilterSubseq<T(!new)>(p: T -> bool, s: seq<T>)
    ensures IsSubseq(Filter(p, s), s)
  {
    if s != [] {
      FilterSubseq(p, s[1..]);
      var r := Filter(p, s[1..]);
      if !p(s[0]) && r != [] {
        assert r[0] in r;
      }
    }
  }

  lemma {:induction false} FilterConcat<T(!new)>(p: T -> bool, a: seq<T>, b: seq<T>)
    ensures Filter(p, a + b) == Filter(p, a) + Filter(p, b)
  {
    if a == [] {
      assert a + b == b;
    } else {
      assert (a + b)[1..] == a[1..] + b;
      FilterConcat(p, a[1..], b);
    }
  }

  lemma FilterSingleton<T(!new)>(p: T -> bool, a: T)
    ensures Filter(p, [a]) == if p(a) then [a] else []
  {
    assert [a][1..] == [];
  }

  /** Filtering keeps a sequence whose elements all pass unchanged. */
  lemma {:induction false} FilterAll<T(!new)>(p: T -> bool, s: seq<T>)
    requires forall i :: 0 <= i < |s| ==> p(s[i])
    ensures Filter(p, s) == s
  {
    if s != [] {
      FilterAll(p, s[1..]);
    }
  }

  /** Filtering removes every element of a sequence none of whose elements pass. */
  lemma {:induction false} FilterNone<T(!new)>(p: T -> bool, s: seq<T>)
    requires forall i :: 0 <= i < |s| ==> !p(s[i])
    ensures Filter(p, s) == []
  {
    if s != [] {
      FilterNone(p, s[1..]);
    }
  }

  /** `reduce((prev, next) => prev.concat(next), [])` over arrays of arrays. */
  function Flatten<T>(ss: seq<seq<T>>): (r: seq<T>)
  {
    if ss == [] then [] else ss[0] + Flatten(ss[1..])
  }

  lemma {:induction false} FlattenConcat<T>(a: seq<seq<T>>, b: seq<seq<T>>)
    ensures Flatten(a + b) == Flatten(a) + Flatten(b)
  {
    if a == [] {
      assert a + b == b;
    } else {
      assert (a + b)[1..] == a[1..] + b;
      FlattenConcat(a[1..], b);
    }
  }

  lemma {:induction false} FlattenMembers<T>(ss: seq<seq<T>>, x: T)
    ensures x in Flatten(ss) <==> exists i :: 0 <= i < |ss| && x in ss[i]
  {
    if ss != [] {
      FlattenMembers(ss[1..], x);
      if x in Flatten(ss[1..]) {
        var i :| 0 <= i < |ss[1..]| && x in ss[1..][i];
        assert x in ss[i + 1];
      }
    }
  }

  /** Index of the first element satisfying `p`, or |s| when there is none. */
  function FirstIndex<T>(p: T -> bool, s: seq<T>): (i: nat)
    ensures i <= |s|
    ensures forall j :: 0 <= j < i ==> !p(s[j])
    ensures i < |s| ==> p(s[i])
  {
    if s == [] then 0
    else if p(s[0]) then 0
    else 1 + FirstIndex(p, s[1..])
  }

  /** Array.prototype.find: the first element satisfying `p`, or undefined. */
  function Find<T>(p: T -> bool, s: seq<T>): (r: Option<T>)
    ensures r.None? <==> forall i :: 0 <= i < |s| ==> !p(s[i])
    ensures r.Some? ==> p(r.value) && exists i :: 0 <= i < |s| && s[i] == r.value && forall j :: 0 <= j < i ==> !p(s[j])
  {
    var i := FirstIndex(p, s);
    if i < |s| then Some(s[i]) else None
  }

  /** Two predicates that agree on every element filter a sequence alike. */
  lemma {:induction false} FilterAgree<T(!new)>(p: T -> bool, q: T -> bool, s: seq<T>)
    requires forall i :: 0 <= i < |s| ==> p(s[i]) == q(s[i])
    ensures Filter(p, s) == Filter(q, s)
  {
    if s != [] {
      FilterAgree(p, q, s[1..]);
    }
  }

  /** How many entries are defined. */
  function SomeCount<T>(xs: seq<Option<T>>): (n: nat)
    ensures n <= |xs|
    ensures n == 0 <==> forall i :: 0 <= i < |xs| ==> xs[i].None?
    ensures n == |xs| <==> forall i :: 0 <= i < |xs| ==> xs[i].Some?
  {
    if xs == [] then 0
    else
      assert forall i :: 1 <= i < |xs| ==> xs[i] == xs[1..][i - 1];
      (if xs[0].Some? then 1 else 0) + SomeCount(xs[1..])
  }

  /** `.filter((item) => item !== undefined)`: the defined entries, in order. */
  function Somes<T>(xs: seq<Option<T>>): (r: seq<T>)
    ensures |r| == SomeCount(xs)
    ensures r == [] <==> forall i :: 0 <= i < |xs| ==> xs[i].None?
  {
    if xs == [] then []
    else
      var rest := Somes(xs[1..]);
      assert forall i :: 1 <= i < |xs| ==> xs[i] == xs[1..][i - 1];
      (if xs[0].Some? then [xs[0].value] else []) + rest
  }

  /** Filtering out the undefined entries commutes with concatenation. */
  lemma {:induction false} SomesConcat<T>(a: seq<Option<T>>, b: seq<Option<T>>)
    ensures Somes(a + b) == Somes(a) + Somes(b)
  {
    if a == [] {
      assert a + b == b;
    } else {
      var head := if a[0].Some? then [a[0].value] else [];
      calc {
        Somes(a + b);
      == { assert (a + b)[0] == a[0]; assert (a + b)[1..] == a[1..] + b; }
        head + Somes(a[1..] + b);
      == { SomesConcat(a[1..], b); }
        head + (Somes(a[1..]) + Somes(b));
      ==
        Somes(a) + Somes(b);
      }
    }
  }

  /** One entry: kept when defined, dropped when not. */
  lemma SomesSingleton<T>(x: Option<T>)
    ensures Somes([x]) == if x.Some? then [x.value] else []
  {
    assert [x][1..] == [];
  }

  /** A value is kept exactly when some entry holds it. */
  lemma {:induction false} SomesMember<T>(xs: seq<Option<T>>, x: T)
    ensures x in Somes(xs) <==> exists i :: 0 <= i < |xs| && xs[i] == Some(x)
  {
    if xs != [] {
      var tail := xs[1..];
      SomesMember(tail, x);
      assert xs == [xs[0]] + tail;
      SomesConcat([xs[0]], tail);
      SomesSingleton(xs[0]);
      if x in Somes(xs) {
        if x in Somes(tail) {
          var i :| 0 <= i < |tail| && tail[i] == Some(x);
          assert xs[i + 1] == Some(x);
        } else {
          assert xs[0] == Some(x);
        }
      }
      if exists i :: 0 <= i < |xs| && xs[i] == Some(x) {
        var i :| 0 <= i < |xs| && xs[i] == Some(x);
        if i > 0 {
          assert tail[i - 1] == Some(x);
        }
      }
    }
  }

  /** Keeping only defined entries that are all empty leaves nothing to
      concatenate. */
  lemma {:induction false} FlattenSomesNil<T>(xs: seq<Option<seq<T>>>)
    requires forall i :: 0 <= i < |xs| ==> xs[i].None? || xs[i] == Some([])
    ensures Flatten(Somes(xs)) == []
  {
    if xs != [] {
      FlattenSomesNil(xs[1..]);
      var head: seq<seq<T>> := if xs[0].Some? then [xs[0].value] else [];
      assert Somes(xs) == head + Somes(xs[1..]);
      FlattenConcat(head, Somes(xs[1..]));
      assert Flatten(head) == [] by {
        if xs[0].Some? {
          assert Flatten(head) == xs[0].value + Flatten(head[1..]);
        }
      }
    }
  }

  /** Mapping a callback that may throw and keeping the defined results: the
      first TypeError escapes, otherwise the defined results in order. */
  function Collect<T>(rs: seq<Result<Option<T>>>): (r: Result<seq<T>>)
    ensures r.TypeError? <==> exists i :: 0 <= i < |rs| && rs[i].TypeError?
    ensures r.Ok? ==> r.value == Somes(seq(|rs|, i requires 0 <= i < |rs| => rs[i].value))
  {
    if rs == [] then Ok([])
    else
      var rest := Collect(rs[1..]);
      assert forall i :: 1 <= i < |rs| ==> rs[i] == rs[1..][i - 1];
      if rs[0].TypeError? || rest.TypeError? then TypeError
      else
        var vs := seq(|rs|, i requires 0 <= i < |rs| => rs[i].value);
        assert vs[1..] == seq(|rs[1..]|, i requires 0 <= i < |rs[1..]| => rs[1..][i].value);
        Ok((if rs[0].value.Some? then [rs[0].value.value] else []) + rest.value)
  }

  /** The defined values of the results that did not throw, in order. */
  function OkValues<T>(rs: seq<Result<Option<T>>>): (r: seq<T>)
  {
    Somes(seq(|rs|, i requires 0 <= i < |rs| => if rs[i].Ok? then rs[i].value else None))
  }

  /** Results that are all undefined or empty leave nothing to concatenate. */
  lemma FlattenOkValuesNil<T>(rs: seq<Result<Option<seq<T>>>>)
    requires forall i :: 0 <= i < |rs| ==> rs[i] == Ok(None) || rs[i] == Ok(Some([]))
    ensures Flatten(OkValues(rs)) == []
  {
    var vs := seq(|rs|, i requires 0 <= i < |rs| => if rs[i].Ok? then rs[i].value else None);
    assert OkValues(rs) == Somes(vs);
    FlattenSomesNil(vs);
  }

  /** When nothing throws, `Collect` keeps exactly the defined values. */
  lemma CollectValues<T>(rs: seq<Result<Option<T>>>)
    requires Collect(rs).Ok?
    ensures Collect(rs).value == OkValues(rs)
  {
    var vs := seq(|rs|, i requires 0 <= i < |rs| => rs[i].value);
    var ws := seq(|rs|, i requires 0 <= i < |rs| => if rs[i].Ok? then rs[i].value else None);
    assert vs == ws;
  }
}
