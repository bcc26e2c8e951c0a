/** The Python `str` operations the modelled code relies on, with Python's
    semantics written out: `lower()` on ASCII letters, `find`, slicing with
    negative indices, `replace` (including an empty pattern), `split`
    and `join`. */
module PyStr {

  // ---------------------------------------------------------------------------
  // lower()

  /** ASCII case folding of one character; other characters are unchanged. */
  function LowerChar(c: char): char
  {
    if 'A' <= c <= 'Z' then (c as int + 32) as char else c
  }

  /** `s.lower()`, restricted to ASCII case folding: one character for one. */
  function Lower(s: string): (r: string)
    ensures |r| == |s|
    ensures forall i :: 0 <= i < |s| ==> r[i] == LowerChar(s[i])
  {
    seq(|s|, i requires 0 <= i < |s| => LowerChar(s[i]))
  }

  /** Lowering commutes with taking a slice. */
  lemma LowerSlice(s: string, i: nat, j: nat)
    requires i <= j <= |s|
    ensures Lower(s[i..j]) == Lower(s)[i..j]
  {
  }

  /** Lowering twice is lowering once. */
  lemma LowerIdempotent(s: string)
    ensures Lower(Lower(s)) == Lower(s)
  {
    assert forall i :: 0 <= i < |s| ==> Lower(Lower(s))[i] == Lower(s)[i];
  }

  // ---------------------------------------------------------------------------
  // find / in

  /** `p` occurs in `s` starting at index `i`. */
  predicate OccursAt(s: string, p: string, i: int)
  {
    0 <= i && i + |p| <= |s| && s[i..i + |p|] == p
  }

  /** `p in s`. */
  predicate Contains(s: string, p: string)
  {
    exists i | 0 <= i <= |s| :: OccursAt(s, p, i)
  }

  /** `s.find(p, k)`: the first occurrence of `p` at or after `k`, or -1. */
  function FindFrom(s: string, p: string, k: nat): (r: int)
    requires k <= |s|
    ensures r == -1 || (k <= r && OccursAt(s, p, r))
    ensures r == -1 ==> forall j :: k <= j ==> !OccursAt(s, p, j)
    ensures r != -1 ==> forall j :: k <= j < r ==> !OccursAt(s, p, j)
    decreases |s| - k
  {
    if k + |p| > |s| then -1
    else if s[k..k + |p|] == p then k
    else FindFrom(s, p, k + 1)
  }

  /** `s.find(p)`: the index of the first occurrence of `p` in `s`, or -1
      when there is none; the empty pattern is found at 0. */
  function Find(s: string, p: string): (r: int)
    ensures r == -1 <==> !Contains(s, p)
    ensures r != -1 ==> OccursAt(s, p, r) && forall j :: 0 <= j < r ==> !OccursAt(s, p, j)
  {
    FindFrom(s, p, 0)
  }

  /** An occurrence in a suffix is an occurrence in the whole text, shifted. */
  lemma OccursAtSuffix(s: string, start: nat, p: string, j: nat)
    requires start <= |s|
    ensures OccursAt(s[start..], p, j) <==> OccursAt(s, p, start + j)
  {
    if j + |p| <= |s| - start {
      assert s[start..][j..j + |p|] == s[start + j..start + j + |p|];
    }
  }

  /** An occurrence that ends within a prefix is one in the whole text. */
  lemma OccursAtPrefix(s: string, n: nat, p: string, k: nat)
    requires n <= |s| && k + |p| <= n
    ensures OccursAt(s[..n], p, k) <==> OccursAt(s, p, k)
  {
    assert s[..n][k..k + |p|] == s[k..k + |p|];
  }

  // ---------------------------------------------------------------------------
  // Slicing

  /** How Python turns a slice bound into a position of a string of length `n`:
      a negative bound counts from the end, and the result is clamped to [0, n]. */
  function SliceBound(i: int, n: nat): (r: nat)
    ensures r <= n
  {
    if i < 0 then (if i + n < 0 then 0 else i + n)
    else if i > n then n
    else i
  }

  /** `s[a:b]`: bounds within the text give the plain slice, a negative
      start counts from the end, and bounds that cross give "". */
  function Slice(s: string, a: int, b: int): (r: string)
    ensures |r| <= |s|
    ensures 0 <= a <= b <= |s| ==> r == s[a..b]
    ensures -|s| <= a < 0 && |s| <= b ==> r == s[|s| + a..]
    ensures SliceBound(b, |s|) <= SliceBound(a, |s|) ==> r == []
  {
    var lo := SliceBound(a, |s|);
    var hi := SliceBound(b, |s|);
    if lo < hi then s[lo..hi] else []
  }

  // ---------------------------------------------------------------------------
  // replace

  /** `s.replace("", t)`: `t` inserted before every character and at the end. */
  function InsertEverywhere(s: string, t: string): (r: string)
  {
    if s == [] then t else t + [s[0]] + InsertEverywhere(s[1..], t)
  }

  /** `s.replace(pat, repl)` for a non-empty `pat`: occurrences found left to
      right, never overlapping, each replaced by `repl`. */
  function ReplaceNonEmpty(s: string, pat: string, repl: string): string
    requires pat != []
    decreases |s|
  {
    if |s| < |pat| then s
    else if s[..|pat|] == pat then repl + ReplaceNonEmpty(s[|pat|..], pat, repl)
    else [s[0]] + ReplaceNonEmpty(s[1..], pat, repl)
  }

  /** `s.replace(pat, repl)`: every occurrence, including the empty pattern.
      A pattern that does not occur changes nothing, and the empty pattern
      adds a copy of `repl` at each of the |s| + 1 positions. */
  function Replace(s: string, pat: string, repl: string): (r: string)
    ensures pat != [] && !Contains(s, pat) ==> r == s
    ensures pat == [] ==> |r| == |s| + (|s| + 1) * |repl|
  {
    if pat == [] then
      InsertEverywhereLength(s, repl);
      InsertEverywhere(s, repl)
    else
      ReplaceAbsent(s, pat, repl);
      ReplaceNonEmpty(s, pat, repl)
  }

  /** Replacing a string by itself changes nothing, also for the empty pattern. */
  lemma {:induction false} ReplaceSelf(s: string, x: string)
    ensures Replace(s, x, x) == s
  {
    if x == [] {
      InsertEverywhereEmpty(s);
    } else {
      ReplaceNonEmptySelf(s, x);
    }
  }

  lemma {:induction false} InsertEverywhereEmpty(s: string)
    ensures InsertEverywhere(s, []) == s
  {
    if s != [] {
      InsertEverywhereEmpty(s[1..]);
      assert s == [s[0]] + s[1..];
    }
  }

  lemma {:induction false} ReplaceNonEmptySelf(s: string, x: string)
    requires x != []
    ensures ReplaceNonEmpty(s, x, x) == s
    decreases |s|
  {
    if |s| < |x| {
    } else if s[..|x|] == x {
      ReplaceNonEmptySelf(s[|x|..], x);
      assert s == s[..|x|] + s[|x|..];
    } else {
      ReplaceNonEmptySelf(s[1..], x);
      assert s == [s[0]] + s[1..];
    }
  }

  /** Replacement works left to right: the text before the first occurrence
      of a non-empty pattern is kept, that occurrence becomes `repl`, and
      the rest of the text is replaced in turn. */
  lemma ReplaceFirstOccurrence(a: string, pat: string, b: string, repl: string)
    requires pat != []
    requires forall k :: 0 <= k < |a| ==> !OccursAt(a + pat + b, pat, k)
    ensures Replace(a + pat + b, pat, repl) == a + repl + Replace(b, pat, repl)
  {
    ReplaceNonEmptyFirst(a, pat, b, repl);
  }

  lemma {:induction false} ReplaceNonEmptyFirst(a: string, pat: string, b: string, repl: string)
    requires pat != []
    requires forall k :: 0 <= k < |a| ==> !OccursAt(a + pat + b, pat, k)
    ensures ReplaceNonEmpty(a + pat + b, pat, repl) == a + repl + ReplaceNonEmpty(b, pat, repl)
    decreases |a|
  {
    var s := a + pat + b;
    if a == [] {
      assert s[..|pat|] == pat;
      assert s[|pat|..] == b;
      assert ReplaceNonEmpty(s, pat, repl) == repl + ReplaceNonEmpty(b, pat, repl);
    } else {
      var a' := a[1..];
      var s' := a' + pat + b;
      assert s[1..] == s';
      assert !OccursAt(s, pat, 0);
      assert ReplaceNonEmpty(s, pat, repl) == [a[0]] + ReplaceNonEmpty(s', pat, repl);
      forall k | 0 <= k < |a'| ensures !OccursAt(s', pat, k) {
        OccursAtSuffix(s, 1, pat, k);
      }
      ReplaceNonEmptyFirst(a', pat, b, repl);
      assert [a[0]] + (a' + repl + ReplaceNonEmpty(b, pat, repl)) == a + repl + ReplaceNonEmpty(b, pat, repl);
    }
  }

  /** A non-empty pattern that does not occur leaves the text unchanged. */
  lemma {:induction false} ReplaceAbsent(s: string, pat: string, repl: string)
    requires pat != []
    ensures !Contains(s, pat) ==> ReplaceNonEmpty(s, pat, repl) == s
    decreases |s|
  {
    if !Contains(s, pat) && |s| >= |pat| {
      assert !OccursAt(s, pat, 0);
      assert s[..|pat|] != pat;
      forall i: nat | i <= |s| - 1 ensures !OccursAt(s[1..], pat, i) {
        OccursAtSuffix(s, 1, pat, i);
      }
      ReplaceAbsent(s[1..], pat, repl);
      assert s == [s[0]] + s[1..];
    }
  }

  /** With an empty pattern, `replace` inserts `t` at each of the |s| + 1
      positions of `s`. */
  lemma {:induction false} InsertEverywhereLength(s: string, t: string)
    ensures |InsertEverywhere(s, t)| == |s| + (|s| + 1) * |t|
  {
    if s != [] {
      InsertEverywhereLength(s[1..], t);
      calc {
        |InsertEverywhere(s, t)|;
        |t| + 1 + |InsertEverywhere(s[1..], t)|;
        |t| + 1 + (|s| - 1) + |s| * |t|;
        |s| + (|s| + 1) * |t|;
      }
    }
  }

  // ---------------------------------------------------------------------------
  // split / join

  /** `s.split(sep)[0]`: the text before the first occurrence of `sep`, or the
      whole text when `sep` does not occur. */
  function SplitHead(s: string, sep: string): (r: string)
    requires sep != []
    ensures !Contains(r, sep)
    ensures forall j :: 0 <= j < |r| ==> !OccursAt(s, sep, j)
    ensures Contains(s, sep) ==> OccursAt(s, sep, |r|) && r == s[..|r|]
    ensures !Contains(s, sep) ==> r == s
  {
    var i := Find(s, sep);
    if i < 0 then s
    else
      assert forall j :: OccursAt(s[..i], sep, j) ==> OccursAt(s, sep, j) by {
        forall j | OccursAt(s[..i], sep, j) ensures OccursAt(s, sep, j) {
          assert s[..i][j..j + |sep|] == s[j..j + |sep|];
        }
      }
      s[..i]
  }

  /** `s[start:].split(sep)[0]` read inside `s`: it runs from `start` to the
      first occurrence of `sep` at or after `start`, or to the end. */
  lemma SplitHeadOfSuffix(s: string, start: nat, sep: string)
    requires start <= |s| && sep != []
    ensures var h := SplitHead(s[start..], sep);
      && start + |h| <= |s|
      && h == s[start..start + |h|]
      && (forall j :: start <= j < start + |h| ==> !OccursAt(s, sep, j))
      && (start + |h| == |s| || OccursAt(s, sep, start + |h|))
  {
    var rest := s[start..];
    var h := SplitHead(rest, sep);
    forall j | start <= j < start + |h|
      ensures !OccursAt(s, sep, j)
    {
      OccursAtSuffix(s, start, sep, j - start);
    }
    if Contains(rest, sep) {
      assert rest[|h|..|h| + |sep|] == s[start + |h|..start + |h| + |sep|];
    }
  }

  /** `s.split("\n")`: the pieces between newline characters. */
  function Lines(s: string): (r: seq<string>)
    ensures |r| >= 1
  {
    if s == [] then [[]]
    else if s[0] == '\n' then [[]] + Lines(s[1..])
    else
      var rest := Lines(s[1..]);
      [[s[0]] + rest[0]] + rest[1..]
  }

  /** A text without newline is one line. */
  lemma {:induction false} LinesSingle(s: string)
    requires '\n' !in s
    ensures Lines(s) == [s]
  {
    if s != [] {
      LinesSingle(s[1..]);
      assert s == [s[0]] + s[1..];
    }
  }

  /** Splitting at a newline splits the lines. */
  lemma {:induction false} LinesConcat(x: string, y: string)
    ensures Lines(x + "\n" + y) == Lines(x) + Lines(y)
  {
    if x == [] {
      assert x + "\n" + y == ['\n'] + y;
      assert (['\n'] + y)[1..] == y;
    } else {
      var s := x + "\n" + y;
      assert s[0] == x[0] && s[1..] == x[1..] + "\n" + y;
      LinesConcat(x[1..], y);
      if x[0] != '\n' {
        var rest := Lines(x[1..]);
        assert Lines(s[1..])[0] == rest[0];
        assert Lines(s[1..])[1..] == rest[1..] + Lines(y);
      }
    }
  }

  /** `sep.join(parts)`: the parts in order, `sep` between two neighbours. */
  function Join(sep: string, parts: seq<string>): (r: string)
    ensures parts == [] ==> r == []
    ensures parts != [] ==> parts[0] <= r
    ensures |parts| >= 2 ==> parts[0] + sep <= r
  {
    if |parts| == 0 then []
    else if |parts| == 1 then parts[0]
    else parts[0] + sep + Join(sep, parts[1..])
  }

  /** One more part adds the separator and that part at the end. */
  lemma {:induction false} JoinAppend(sep: string, parts: seq<string>, x: string)
    requires parts != []
    ensures Join(sep, parts + [x]) == Join(sep, parts) + sep + x
  {
    if |parts| == 1 {
      assert (parts + [x])[1..] == [x];
    } else {
      assert (parts + [x])[1..] == parts[1..] + [x];
      JoinAppend(sep, parts[1..], x);
    }
  }

  // ---------------------------------------------------------------------------
  // Comparison

  /** `a < b` on Python strings: lexicographic by code point, a proper prefix
      being smaller. */
  predicate StrLess(a: string, b: string)
  {
    if a == [] then b != []
    else if b == [] then false
    else a[0] < b[0] || (a[0] == b[0] && StrLess(a[1..], b[1..]))
  }

  /** No string is smaller than itself. */
  lemma {:induction false} StrLessIrreflexive(a: string)
    ensures !StrLess(a, a)
  {
    if a != [] {
      StrLessIrreflexive(a[1..]);
    }
  }

  /** Of two strings, at most one is smaller than the other. */
  lemma {:induction false} StrLessAsymmetric(a: string, b: string)
    requires StrLess(a, b)
    ensures !StrLess(b, a)
  {
    if a != [] && b != [] && a[0] == b[0] {
      StrLessAsymmetric(a[1..], b[1..]);
    }
  }

  /** "Not smaller" is transitive: `a <= b` and `b <= c` give `a <= c`. */
  lemma {:induction false} StrNotLessTransitive(a: string, b: string, c: string)
    requires !StrLess(b, a) && !StrLess(c, b)
    ensures !StrLess(c, a)
  {
    if a != [] && b != [] && c != [] && a[0] == b[0] && b[0] == c[0] {
      StrNotLessTransitive(a[1..], b[1..], c[1..]);
    }
  }
}
