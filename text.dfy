/** The JavaScript string operations the pipeline uses: trim, replace-all,
    split on one character, slice(-n) and the letter test of a regular
    expression. Strings are sequences of `char`, which are Unicode scalar
    values: a character outside the Basic Multilingual Plane is one `char`
    here and two UTF-16 code units in JavaScript. */
module Text {
  import opened Seqs

  /** The whitespace `trim` removes, restricted to what the OCR text carries. */
  predicate IsSpace(c: char) { c == ' ' || c == '\n' }

  /** Every character is whitespace (the empty string included). */
  predicate IsBlank(s: string) { forall i :: 0 <= i < |s| ==> IsSpace(s[i]) }

  /** The first index from `i` on that is not whitespace, or |s|. */
  function SkipSpaces(s: string, i: nat): (k: nat)
    requires i <= |s|
    ensures i <= k <= |s|
    ensures forall j :: i <= j < k ==> IsSpace(s[j])
    ensures k < |s| ==> !IsSpace(s[k])
    decreases |s| - i
  {
    if i < |s| && IsSpace(s[i]) then SkipSpaces(s, i + 1) else i
  }

  /** The index just after the last character before `j` and from `lo` on
      that is not whitespace, or `lo`. */
  function SkipSpacesBack(s: string, lo: nat, j: nat): (k: nat)
    requires lo <= j <= |s|
    ensures lo <= k <= j
    ensures forall m :: k <= m < j ==> IsSpace(s[m])
    ensures k > lo ==> !IsSpace(s[k - 1])
    decreases j - lo
  {
    if j > lo && IsSpace(s[j - 1]) then SkipSpacesBack(s, lo, j - 1) else j
  }

  /** Where `trim()` starts cutting: the first character that is not whitespace. */
  function TrimFrom(s: string): nat
  {
    SkipSpaces(s, 0)
  }

  /** Where `trim()` stops: just after the last character that is not whitespace. */
  function TrimTo(s: string): nat
  {
    SkipSpacesBack(s, TrimFrom(s), |s|)
  }

  /** String.prototype.trim. */
  function Trim(s: string): string
  {
    s[TrimFrom(s)..TrimTo(s)]
  }

  /** `trim()` cuts only whitespace from both ends: what it returns is the
      slice of the input between two runs of whitespace. */
  lemma TrimSpec(s: string)
    ensures var a, b := TrimFrom(s), TrimTo(s);
      0 <= a <= b <= |s| && Trim(s) == s[a..b]
        && (forall i :: 0 <= i < a ==> IsSpace(s[i]))
        && (forall i :: b <= i < |s| ==> IsSpace(s[i]))
  {
  }

  /** What `trim()` returns neither starts nor ends with whitespace. */
  lemma TrimEnds(s: string)
    ensures Trim(s) != [] ==> !IsSpace(Trim(s)[0]) && !IsSpace(Trim(s)[|Trim(s)| - 1])
  {
    var a, b := TrimFrom(s), TrimTo(s);
    if a < b {
      assert Trim(s)[0] == s[a];
      assert Trim(s)[b - a - 1] == s[b - 1];
    }
  }

  /** `trim()` leaves nothing exactly when the string is blank. */
  lemma TrimBlank(s: string)
    ensures Trim(s) == [] <==> IsBlank(s)
  {
    var a, b := TrimFrom(s), TrimTo(s);
    if a < b {
      assert Trim(s)[0] == s[a];
    }
  }

  /** `replace(/c/g, '')`: every occurrence of the character `c` deleted. */
  function RemoveChar(s: string, c: char): (r: string)
  {
    Filter((d: char) => d != c, s)
  }

  lemma RemoveCharConcat(a: string, b: string, c: char)
    ensures RemoveChar(a + b, c) == RemoveChar(a, c) + RemoveChar(b, c)
  {
    FilterConcat((d: char) => d != c, a, b);
  }

  /** `pat` occurs in `s` starting at index `i`. */
  predicate OccursAt(s: string, pat: string, i: nat)
  {
    i + |pat| <= |s| && s[i..i + |pat|] == pat
  }

  /** `replace(/pat/g, '')` for a non-empty literal pattern: occurrences are
      found left to right and each is deleted; the scan resumes after it. */
  function DeleteAll(s: string, pat: string): (r: string)
    requires pat != ""
    ensures |r| <= |s|
    ensures forall c :: c in r ==> c in s
    ensures (forall i: nat :: !OccursAt(s, pat, i)) ==> r == s
    decreases |s|
  {
    if |s| < |pat| then s
    else if s[..|pat|] == pat then
      assert OccursAt(s, pat, 0);
      DeleteAll(s[|pat|..], pat)
    else
      var rest := DeleteAll(s[1..], pat);
      assert forall i: nat :: OccursAt(s[1..], pat, i) ==> OccursAt(s, pat, i + 1);
      [s[0]] + rest
  }

  /** An occurrence of `pat` at the front is deleted, and the scan resumes
      right after it. */
  lemma DeleteAllHead(pat: string, t: string)
    requires pat != ""
    ensures DeleteAll(pat + t, pat) == DeleteAll(t, pat)
  {
    var s := pat + t;
    assert s[..|pat|] == pat;
    assert s[|pat|..] == t;
  }

  /** No occurrence starts inside `a` when `a + t` is read from index 1. */
  lemma NoOccurrenceShift(a: string, t: string, pat: string)
    requires a != []
    requires forall i :: 0 <= i < |a| ==> !OccursAt(a + t, pat, i)
    ensures forall i :: 0 <= i < |a| - 1 ==> !OccursAt(a[1..] + t, pat, i)
  {
    var s := a + t;
    assert s[1..] == a[1..] + t;
    forall i | 0 <= i < |a| - 1
      ensures !OccursAt(a[1..] + t, pat, i)
    {
      assert !OccursAt(s, pat, i + 1);
      if i + |pat| <= |s| - 1 {
        assert s[1..][i..i + |pat|] == s[i + 1..i + 1 + |pat|];
      }
    }
  }

  /** Where no occurrence starts at the front, the first character is kept. */
  lemma DeleteAllStep(s: string, pat: string)
    requires pat != "" && s != []
    requires !OccursAt(s, pat, 0)
    ensures DeleteAll(s, pat) == [s[0]] + DeleteAll(s[1..], pat)
  {
    if |s| < |pat| {
      assert DeleteAll(s[1..], pat) == s[1..];
      assert s == [s[0]] + s[1..];
    }
  }

  /** A prefix in which no occurrence of `pat` starts is kept as it is, in
      order, in front of whatever the rest becomes. */
  lemma {:induction false} DeleteAllKeeps(a: string, t: string, pat: string)
    requires pat != ""
    requires forall i :: 0 <= i < |a| ==> !OccursAt(a + t, pat, i)
    ensures DeleteAll(a + t, pat) == a + DeleteAll(t, pat)
    decreases |a|
  {
    if a == [] {
      assert a + t == t;
    } else {
      calc {
        DeleteAll(a + t, pat);
      == { DeleteAllStep(a + t, pat); assert (a + t)[1..] == a[1..] + t; }
        [a[0]] + DeleteAll(a[1..] + t, pat);
      == { NoOccurrenceShift(a, t, pat); DeleteAllKeeps(a[1..], t, pat); }
        [a[0]] + (a[1..] + DeleteAll(t, pat));
      == { assert a == [a[0]] + a[1..]; }
        a + DeleteAll(t, pat);
      }
    }
  }

  /** `parts.join(sep)`. */
  function JoinWith(parts: seq<string>, sep: char): string
    requires parts != []
  {
    if |parts| == 1 then parts[0] else parts[0] + [sep] + JoinWith(parts[1..], sep)
  }

  /** String.prototype.split with a one-character separator. */
  function Split(s: string, sep: char): (parts: seq<string>)
    ensures parts != []
    ensures forall i :: 0 <= i < |parts| ==> sep !in parts[i]
    ensures JoinWith(parts, sep) == s
    ensures |parts| == 1 <==> sep !in s
  {
    if s == [] then [""]
    else
      var rest := Split(s[1..], sep);
      assert s == [s[0]] + s[1..];
      if s[0] == sep then [""] + rest
      else
        assert |rest| > 1 ==> JoinWith(rest, sep) == rest[0] + [sep] + JoinWith(rest[1..], sep);
        [[s[0]] + rest[0]] + rest[1..]
  }

  /** `s.slice(-n)` for n > 0: the last n characters, or all of s when shorter. */
  function SliceFromEnd(s: string, n: nat): (r: string)
    requires n > 0
    ensures |r| == if |s| < n then |s| else n
    ensures s == s[..|s| - |r|] + r
  {
    if |s| <= n then s else s[|s| - n..]
  }

  predicate IsAsciiLetter(c: char) { 'A' <= c <= 'Z' || 'a' <= c <= 'z' }

  /** `/^[A-Za-z]+$/.test(s)`. */
  predicate MatchesLetters(s: string)
  {
    |s| > 0 && forall i :: 0 <= i < |s| ==> IsAsciiLetter(s[i])
  }

  /** `parts.join(sep)` for a separator string. */
  function JoinStr(parts: seq<string>, sep: string): string
  {
    if parts == [] then ""
    else if |parts| == 1 then parts[0]
    else parts[0] + sep + JoinStr(parts[1..], sep)
  }

  /** `.replace(/ /g, '').replace(/\n/g, '')` */
  function Clean(s: string): (r: string)
    ensures ' ' !in r && '\n' !in r
  {
    var r := RemoveChar(RemoveChar(s, ' '), '\n');
    assert forall c :: c in r ==> c in RemoveChar(s, ' ');
    r
  }

  lemma CleanConcat(a: string, b: string)
    ensures Clean(a + b) == Clean(a) + Clean(b)
  {
    RemoveCharConcat(a, b, ' ');
    RemoveCharConcat(RemoveChar(a, ' '), RemoveChar(b, ' '), '\n');
  }

  /** Every part cleaned. */
  function CleanAll(parts: seq<string>): (r: seq<string>)
    ensures |r| == |parts|
    ensures forall i :: 0 <= i < |r| ==> r[i] == Clean(parts[i])
  {
    seq(|parts|, i requires 0 <= i < |parts| => Clean(parts[i]))
  }

  /** Cleaning a joined string cleans each part and the separator. */
  lemma {:induction false} CleanJoin(parts: seq<string>, sep: string)
    ensures Clean(JoinStr(parts, sep)) == JoinStr(CleanAll(parts), Clean(sep))
  {
    if |parts| > 1 {
      CleanJoin(parts[1..], sep);
      assert CleanAll(parts)[1..] == CleanAll(parts[1..]);
      CleanConcat(parts[0] + sep, JoinStr(parts[1..], sep));
      CleanConcat(parts[0], sep);
    }
  }

  /** Cleaning leaves a string without spaces and line breaks as it is. */
  lemma CleanKeeps(s: string)
    requires ' ' !in s && '\n' !in s
    ensures Clean(s) == s
  {
    FilterAll((d: char) => d != ' ', s);
    FilterAll((d: char) => d != '\n', s);
  }

  /** Cleaning empties a string of spaces and line breaks. */
  lemma CleanBlank(s: string)
    requires IsBlank(s)
    ensures Clean(s) == ""
  {
    var t := RemoveChar(s, ' ');
    forall i | 0 <= i < |t| ensures t[i] == '\n' {
      assert t[i] in t;
      var j :| 0 <= j < |s| && s[j] == t[i];
    }
    FilterNone((d: char) => d != '\n', t);
  }
}
