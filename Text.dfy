/** String operations with the meaning Python gives them on `str` values,
    shared by the slug generator, the HTML assembler and the editors. */
module Text {
  import opened Optional

  // ---------------------------------------------------------------------
  // Substring search: Python's `n in s`
  // ---------------------------------------------------------------------

  predicate Contains(s: string, n: string)
  {
    exists i :: 0 <= i <= |s| && n <= s[i..]
  }

  lemma ContainsInfix(a: string, n: string, b: string)
    ensures Contains(a + n + b, n)
  {
    assert (a + n + b)[|a|..] == n + b;
  }

  /** Where `a + c` meets `m`, the text contains `c + m`. */
  lemma ContainsJoint(a: string, c: string, m: string, b: string)
    ensures Contains((a + c) + m + b, c + m)
  {
    ContainsInfix(a, c + m, b);
    assert (a + c) + m + b == a + (c + m) + b;
  }

  lemma ContainsEnd(a: string, n: string)
    ensures Contains(a + n, n)
  {
    assert (a + n)[|a|..] == n;
  }

  lemma ContainsStart(a: string, b: string)
    ensures Contains(a + b, a)
  {
    assert (a + b)[0..] == a + b;
  }

  lemma ContainsLeft(a: string, b: string, n: string)
    requires Contains(a, n)
    ensures Contains(a + b, n)
  {
    var i :| 0 <= i <= |a| && n <= a[i..];
    assert (a + b)[i..][..|n|] == a[i..][..|n|];
  }

  lemma ContainsRight(a: string, b: string, n: string)
    requires Contains(b, n)
    ensures Contains(a + b, n)
  {
    var i :| 0 <= i <= |b| && n <= b[i..];
    assert (a + b)[|a| + i..] == b[i..];
  }

  /** Every item of a join occurs in it. */
  lemma {:induction false} JoinContains(sep: string, xs: seq<string>, i: nat)
    requires i < |xs|
    ensures Contains(Join(sep, xs), xs[i])
  {
    if |xs| == 1 {
      assert Join(sep, xs)[0..] == xs[0];
    } else if i == 0 {
      ContainsInfix([], xs[0], sep + Join(sep, xs[1..]));
      assert [] + xs[0] + (sep + Join(sep, xs[1..])) == Join(sep, xs);
    } else {
      JoinContains(sep, xs[1..], i - 1);
      ContainsRight(xs[0] + sep, Join(sep, xs[1..]), xs[i]);
    }
  }

  lemma ContainsTransitive(s: string, t: string, u: string)
    requires Contains(s, t) && Contains(t, u)
    ensures Contains(s, u)
  {
    var i :| 0 <= i <= |s| && t <= s[i..];
    var j :| 0 <= j <= |t| && u <= t[j..];
    assert s[i + j..][..|u|] == u by {
      forall k | 0 <= k < |u| ensures s[i + j + k] == u[k] {
        assert s[i..][j + k] == t[j + k];
      }
    }
  }

  lemma ContainsExtend(a: string, s: string, b: string, n: string)
    requires Contains(s, n)
    ensures Contains(a + s + b, n)
  {
    var i :| 0 <= i <= |s| && n <= s[i..];
    assert (a + s + b)[|a| + i..][..|n|] == s[i..][..|n|];
  }

  // ---------------------------------------------------------------------
  // Whitespace and stripping: `str.isspace`, `str.strip()`, `str.strip(c)`,
  // `str.rstrip(c)`
  // ---------------------------------------------------------------------

  /** The characters for which Python's `str.isspace()` holds; the regular
      expression class `\s` on `str` patterns matches the same set. */
  predicate IsSpace(c: char)
  {
    if c <= ' ' then '\t' <= c <= '\r' || '\U{1C}' <= c
    else '\U{85}' <= c && IsWideSpace(c)
  }

  /** The whitespace characters above U+0020. */
  predicate IsWideSpace(c: char)
  {
    || c == '\U{85}'
    || c == '\U{A0}'
    || c == '\U{1680}'
    || '\U{2000}' <= c <= '\U{200A}'
    || c == '\U{2028}'
    || c == '\U{2029}'
    || c == '\U{202F}'
    || c == '\U{205F}'
    || c == '\U{3000}'
  }

  /** Every character of `s` satisfies `p`. */
  predicate All(s: string, p: char -> bool)
  {
    forall k :: 0 <= k < |s| ==> p(s[k])
  }

  lemma AllConcat(a: string, b: string, p: char -> bool)
    ensures All(a + b, p) <==> All(a, p) && All(b, p)
  {
    if All(a, p) && All(b, p) {
      forall k | 0 <= k < |a + b| ensures p((a + b)[k]) {
        if k >= |a| {
          assert (a + b)[k] == b[k - |a|];
        }
      }
    }
    if All(a + b, p) {
      assert forall k :: 0 <= k < |a| ==> a[k] == (a + b)[k];
      assert forall k :: 0 <= k < |b| ==> b[k] == (a + b)[|a| + k];
    }
  }

  lemma AllSlice(s: string, i: nat, j: nat, p: char -> bool)
    requires All(s, p) && i <= j <= |s|
    ensures All(s[i..j], p)
  {
    assert forall k :: 0 <= k < j - i ==> s[i..j][k] == s[i + k];
  }

  predicate IsHyphen(c: char) { c == '-' }

  predicate IsSlash(c: char) { c == '/' }

  /** Removes the longest prefix of characters satisfying `drop`. */
  function StripLeft(s: string, drop: char -> bool): (r: string)
    ensures |r| <= |s| && r == s[|s| - |r|..]
    ensures forall k :: 0 <= k < |s| - |r| ==> drop(s[k])
    ensures r != [] ==> !drop(r[0])
    decreases |s|
  {
    if s != [] && drop(s[0]) then StripLeft(s[1..], drop) else s
  }

  /** Removes the longest suffix of characters satisfying `drop`. */
  function StripRight(s: string, drop: char -> bool): (r: string)
    ensures |r| <= |s| && r == s[..|r|]
    ensures forall k :: |r| <= k < |s| ==> drop(s[k])
    ensures r != [] ==> !drop(r[|r| - 1])
    decreases |s|
  {
    if s != [] && drop(s[|s| - 1]) then StripRight(s[..|s| - 1], drop) else s
  }

  /** Stripping a suffix made only of dropped characters, after a text that
      does not end with one, gives back that text. */
  lemma {:induction false} StripRightRun(b: string, w: string, drop: char -> bool)
    requires All(w, drop) && (b == [] || !drop(b[|b| - 1]))
    ensures StripRight(b + w, drop) == b
    decreases |w|
  {
    if w == [] {
      assert b + w == b;
    } else {
      var s := b + w;
      assert s[|s| - 1] == w[|w| - 1];
      assert s[..|s| - 1] == b + w[..|w| - 1];
      AllSlice(w, 0, |w| - 1, drop);
      StripRightRun(b, w[..|w| - 1], drop);
    }
  }

  /** Python's `s.strip(chars)`: the middle slice left after dropping the
      characters of `drop` from both ends. */
  function StripBoth(s: string, drop: char -> bool): (r: string)
    ensures |r| <= |s|
    ensures r != [] ==> !drop(r[0]) && !drop(r[|r| - 1])
    ensures r == [] <==> forall k :: 0 <= k < |s| ==> drop(s[k])
  {
    StripRight(StripLeft(s, drop), drop)
  }

  /** The stripped text is the slice `s[i..i + |r|]`, and everything cut off
      on either side was a dropped character. */
  lemma StripBothSlice(s: string, drop: char -> bool) returns (i: nat)
    ensures i + |StripBoth(s, drop)| <= |s|
    ensures StripBoth(s, drop) == s[i..i + |StripBoth(s, drop)|]
    ensures forall k :: 0 <= k < i ==> drop(s[k])
    ensures forall k :: i + |StripBoth(s, drop)| <= k < |s| ==> drop(s[k])
  {
    var m := StripLeft(s, drop);
    i := |s| - |m|;
    assert s[i..] == m;
    assert forall k :: |StripBoth(s, drop)| <= k < |m| ==> m[k] == s[i + k];
  }

  /** Python's `s.strip()`. */
  function Strip(s: string): string
  {
    StripBoth(s, IsSpace)
  }

  /** Stripping keeps a property every character had. */
  lemma StripBothAll(s: string, drop: char -> bool, p: char -> bool)
    requires All(s, p)
    ensures All(StripBoth(s, drop), p)
  {
    var i := StripBothSlice(s, drop);
    AllSlice(s, i, i + |StripBoth(s, drop)|, p);
  }

  /** A string that does not start or end with a dropped character is its own
      strip. */
  lemma StripBothUnchanged(s: string, drop: char -> bool)
    requires s != [] ==> !drop(s[0]) && !drop(s[|s| - 1])
    ensures StripBoth(s, drop) == s
  {
  }

  /** Padding made only of dropped characters is removed, and nothing else. */
  lemma StripPadded(a: string, c: string, b: string, drop: char -> bool)
    requires All(a, drop) && All(b, drop)
    requires c != [] && !drop(c[0]) && !drop(c[|c| - 1])
    ensures StripBoth(a + c + b, drop) == c
  {
    var s := a + c + b;
    var r := StripBoth(s, drop);
    var i := StripBothSlice(s, drop);
    assert s[|a|] == c[0];
    assert s[|a| + |c| - 1] == c[|c| - 1];
    assert r != [];
    assert i == |a|;
    assert i + |r| == |a| + |c|;
    assert s[|a|..|a| + |c|] == c;
  }

  // ---------------------------------------------------------------------
  // Character scans used in place of regular expressions
  // ---------------------------------------------------------------------

  /** The longest prefix of `s`, at most `max` characters long, whose
      characters all satisfy `p`: what a greedy `p{0,max}` consumes. */
  function Span(s: string, p: char -> bool, max: nat): (r: string)
    ensures r <= s && |r| <= max
    ensures forall k :: 0 <= k < |r| ==> p(r[k])
    ensures |r| < max && |r| < |s| ==> !p(s[|r|])
    decreases max
  {
    if max == 0 || s == [] || !p(s[0]) then [] else [s[0]] + Span(s[1..], p, max - 1)
  }

  /** Where the character tests agree, so do the spans. */
  lemma {:induction false} SpanAgrees(s: string, p: char -> bool, t: string, q: char -> bool, max: nat)
    requires |s| == |t| && forall k :: 0 <= k < |s| ==> (p(s[k]) <==> q(t[k]))
    ensures |Span(s, p, max)| == |Span(t, q, max)|
    decreases max
  {
    if max > 0 && s != [] && p(s[0]) {
      SpanAgrees(s[1..], p, t[1..], q, max - 1);
    }
  }

  /** A run of `p` characters, stopped by the end of the bound or by a
      character outside `p`, is exactly the span. */
  lemma {:induction false} SpanOfRun(w: string, t: string, p: char -> bool, max: nat)
    requires All(w, p) && |w| <= max
    requires |w| < max && t != [] ==> !p(t[0])
    ensures Span(w + t, p, max) == w
    decreases |w|
  {
    if w == [] {
      assert w + t == t;
    } else {
      assert (w + t)[1..] == w[1..] + t;
      assert (w + t)[0] == w[0];
      AllSlice(w, 1, |w|, p);
      SpanOfRun(w[1..], t, p, max - 1);
    }
  }

  /** A span is at least as long as a run of `p` characters it starts with. */
  lemma {:induction false} SpanCoversRun(w: string, t: string, p: char -> bool, max: nat)
    requires All(w, p) && |w| <= max
    ensures |Span(w + t, p, max)| >= |w|
    decreases |w|
  {
    if w != [] {
      assert (w + t)[1..] == w[1..] + t;
      assert (w + t)[0] == w[0];
      AllSlice(w, 1, |w|, p);
      SpanCoversRun(w[1..], t, p, max - 1);
    }
  }

  predicate IsHexDigit(c: char)
  {
    '0' <= c <= '9' || 'a' <= c <= 'f' || 'A' <= c <= 'F'
  }

  predicate IsLowerHexDigit(c: char)
  {
    '0' <= c <= '9' || 'a' <= c <= 'f'
  }

  // ---------------------------------------------------------------------
  // `sep.join(xs)` and `s.replace(pat, rep)`
  // ---------------------------------------------------------------------

  function Join(sep: string, xs: seq<string>): (r: string)
  {
    if |xs| == 0 then "" else if |xs| == 1 then xs[0] else xs[0] + sep + Join(sep, xs[1..])
  }

  /** A join starts with the first character of its first item. */
  lemma {:induction false} JoinStartsWithFirstWord(sep: string, words: seq<string>)
    requires |words| > 0 && words[0] != []
    ensures Join(sep, words) != [] && Join(sep, words)[0] == words[0][0]
  {
  }

  /** A join ends with the last character of its last item. */
  lemma {:induction false} JoinEndsWithLastWord(sep: string, words: seq<string>)
    requires |words| > 0 && words[|words| - 1] != []
    ensures Join(sep, words) != []
    ensures Join(sep, words)[|Join(sep, words)| - 1] == words[|words| - 1][|words[|words| - 1]| - 1]
  {
    if |words| >= 2 {
      JoinEndsWithLastWord(sep, words[1..]);
    }
  }

  /** With a non-empty separator, a join is empty exactly when there is
      nothing to join or the only element is empty. */
  lemma {:induction false} JoinEmpty(sep: string, xs: seq<string>)
    requires sep != ""
    ensures Join(sep, xs) == "" <==> xs == [] || xs == [""]
  {
    if |xs| >= 2 {
      assert |Join(sep, xs)| >= |sep|;
    }
  }

  /** Python's `s.replace(pat, rep)` for a non-empty `pat`: occurrences are
      found left to right and do not overlap. */
  function ReplaceAll(s: string, pat: string, rep: string): string
    requires pat != ""
    decreases |s|
  {
    if s == [] then []
    else if pat <= s then rep + ReplaceAll(s[|pat|..], pat, rep)
    else [s[0]] + ReplaceAll(s[1..], pat, rep)
  }

  /** Places `b` in front of every position of `s` where `pat` starts. */
  function InsertBefore(s: string, pat: string, b: string): string
    decreases |s|
  {
    if s == [] then []
    else (if pat <= s then b else []) + [s[0]] + InsertBefore(s[1..], pat, b)
  }

  lemma {:induction false} AbsentTail(s: string, pat: string)
    requires s != [] && !Contains(s, pat)
    ensures !(pat <= s) && !Contains(s[1..], pat)
  {
    assert s[0..] == s;
  }

  /** Without an occurrence of `pat`, replacing changes nothing. */
  lemma {:induction false} ReplaceAllAbsent(s: string, pat: string, rep: string)
    requires pat != "" && !Contains(s, pat)
    ensures ReplaceAll(s, pat, rep) == s
    decreases |s|
  {
    if s != [] {
      AbsentTail(s, pat);
      ReplaceAllAbsent(s[1..], pat, rep);
    }
  }

  /** Python's `s.count(pat)` for a non-empty `pat`: the number of
      occurrences found scanning left to right without overlap. */
  function Count(s: string, pat: string): nat
    requires pat != ""
    decreases |s|
  {
    if s == [] then 0
    else if pat <= s then 1 + Count(s[|pat|..], pat)
    else Count(s[1..], pat)
  }

  /** `n` copies of `s` joined with nothing in between, as
      `"".join([s for _ in range(n)])` builds them. */
  function Repeat(s: string, n: nat): string
  {
    Join("", seq(n, _ => s))
  }

  lemma {:induction false} RepeatUnfold(s: string, n: nat)
    requires n > 0
    ensures Repeat(s, n) == s + Repeat(s, n - 1)
  {
    var xs := seq(n, _ => s);
    assert xs[1..] == seq(n - 1, _ => s);
    if n == 1 {
      assert Repeat(s, 0) == "";
    }
  }

  /** The text repeated `n` times is counted `n` times. */
  lemma {:induction false} CountRepeat(s: string, n: nat)
    requires s != ""
    ensures Count(Repeat(s, n), s) == n
  {
    if n > 0 {
      RepeatUnfold(s, n);
      var t := Repeat(s, n);
      assert s <= t;
      assert t[|s|..] == Repeat(s, n - 1);
      CountRepeat(s, n - 1);
    }
  }

  /** A pattern whose first character does not occur again in it cannot
      overlap itself. */
  predicate Unoverlapping(pat: string)
  {
    pat != [] && forall k :: 0 < k < |pat| ==> pat[k] != pat[0]
  }

  predicate StartsAt(s: string, pat: string, k: nat)
    requires k <= |s|
  {
    pat <= s[k..]
  }

  /** The leftmost position at or after `i` where `pat` starts. */
  function FirstFrom(s: string, pat: string, i: nat): (r: Option<nat>)
    requires i <= |s|
    ensures r.Some? ==> i <= r.value <= |s| && StartsAt(s, pat, r.value)
    ensures r.Some? ==> forall k :: i <= k < r.value ==> !StartsAt(s, pat, k)
    ensures r.None? ==> forall k :: i <= k <= |s| ==> !StartsAt(s, pat, k)
    decreases |s| - i
  {
    if StartsAt(s, pat, i) then Some(i)
    else if i == |s| then None
    else FirstFrom(s, pat, i + 1)
  }

  /** The rightmost position at or before `i` where `pat` starts. */
  function LastUpTo(s: string, pat: string, i: nat): (r: Option<nat>)
    requires i <= |s|
    ensures r.Some? ==> r.value <= i && StartsAt(s, pat, r.value)
    ensures r.Some? ==> forall k :: r.value < k <= i ==> !StartsAt(s, pat, k)
    ensures r.None? ==> forall k :: 0 <= k <= i ==> !StartsAt(s, pat, k)
  {
    if StartsAt(s, pat, i) then Some(i)
    else if i == 0 then None
    else LastUpTo(s, pat, i - 1)
  }

  lemma StartsAtTail(s: string, pat: string, k: nat)
    requires s != [] && k < |s|
    ensures StartsAt(s[1..], pat, k) == StartsAt(s, pat, k + 1)
  {
    assert s[1..][k..] == s[k + 1..];
  }

  /** Splitting off the first character of a prefix. */
  lemma ConsSplit(s: string, m: nat, u: string)
    requires 0 < m <= |s|
    ensures s[1..][m - 1..] == s[m..]
    ensures [s[0]] + (s[1..][..m - 1] + u) == s[..m] + u
  {
    assert s[..m] == [s[0]] + s[1..][..m - 1];
  }

  /** Where `pat` does not start, `InsertBefore` copies the text through. */
  lemma {:induction false} InsertBeforeSkips(s: string, pat: string, b: string, m: nat)
    requires m <= |s|
    requires forall k :: 0 <= k < m ==> !StartsAt(s, pat, k)
    ensures InsertBefore(s, pat, b) == s[..m] + InsertBefore(s[m..], pat, b)
  {
    if m > 0 {
      var t := s[1..];
      assert !StartsAt(s, pat, 0);
      assert s[0..] == s;
      assert InsertBefore(s, pat, b) == [s[0]] + InsertBefore(t, pat, b);
      forall k | 0 <= k < m - 1 ensures !StartsAt(t, pat, k) {
        StartsAtTail(s, pat, k);
      }
      InsertBeforeSkips(t, pat, b, m - 1);
      ConsSplit(s, m, InsertBefore(s[m..], pat, b));
    }
  }

  /** At an occurrence of an unoverlapping `pat`, `InsertBefore` emits `b`,
      then the occurrence, then carries on after it. */
  lemma InsertBeforeAtMatch(s: string, pat: string, b: string)
    requires Unoverlapping(pat) && pat <= s
    ensures InsertBefore(s, pat, b) == b + pat + InsertBefore(s[|pat|..], pat, b)
  {
    var t := s[1..];
    forall k | 0 <= k < |pat| - 1 ensures !StartsAt(t, pat, k) {
      assert t[k..][0] == pat[k + 1];
    }
    InsertBeforeSkips(t, pat, b, |pat| - 1);
    assert t[|pat| - 1..] == s[|pat|..];
    assert [s[0]] + t[..|pat| - 1] == pat;
  }

  /** Replacing `pat` by `b + pat` inserts `b` before every occurrence of `pat`
      when `pat` cannot overlap itself, as is the case for `</body>`. */
  lemma {:induction false} ReplaceIsInsertBefore(s: string, pat: string, b: string)
    requires Unoverlapping(pat)
    ensures ReplaceAll(s, pat, b + pat) == InsertBefore(s, pat, b)
    decreases |s|
  {
    if s == [] {
    } else if pat <= s {
      InsertBeforeAtMatch(s, pat, b);
      ReplaceIsInsertBefore(s[|pat|..], pat, b);
    } else {
      ReplaceIsInsertBefore(s[1..], pat, b);
    }
  }

  lemma {:induction false} InsertBeforeKeepsPrefix(s: string, pat: string, b: string, n: string)
    requires pat != [] && pat[0] !in n
    requires n <= s
    ensures n <= InsertBefore(s, pat, b)
    decreases |s|
  {
    if n != [] {
      assert !(pat <= s);
      assert n[1..] <= s[1..];
      InsertBeforeKeepsPrefix(s[1..], pat, b, n[1..]);
    }
  }

  /** Text that cannot contain the start of `pat` survives the insertions. */
  lemma {:induction false} InsertBeforeKeeps(s: string, pat: string, b: string, n: string)
    requires pat != [] && pat[0] !in n
    requires Contains(s, n)
    ensures Contains(InsertBefore(s, pat, b), n)
    decreases |s|
  {
    var i :| 0 <= i <= |s| && n <= s[i..];
    if i == 0 {
      InsertBeforeKeepsPrefix(s, pat, b, n);
      assert n <= InsertBefore(s, pat, b)[0..];
    } else {
      assert s[1..][i - 1..] == s[i..];
      InsertBeforeKeeps(s[1..], pat, b, n);
      ContainsExtend((if pat <= s then b else []) + [s[0]], InsertBefore(s[1..], pat, b), [], n);
      assert (if pat <= s then b else []) + [s[0]] + InsertBefore(s[1..], pat, b) + [] == InsertBefore(s, pat, b);
    }
  }

  /** Wherever an unoverlapping `pat` occurs, the inserted text now stands
      right before it. */
  lemma {:induction false} InsertBeforeInserts(s: string, pat: string, b: string)
    requires Unoverlapping(pat) && Contains(s, pat)
    ensures Contains(InsertBefore(s, pat, b), b + pat)
    decreases |s|
  {
    var i :| 0 <= i <= |s| && pat <= s[i..];
    if i == 0 {
      InsertBeforeAtMatch(s, pat, b);
      ContainsInfix([], b + pat, InsertBefore(s[|pat|..], pat, b));
      assert [] + (b + pat) + InsertBefore(s[|pat|..], pat, b) == InsertBefore(s, pat, b);
    } else {
      assert s[1..][i - 1..] == s[i..];
      InsertBeforeInserts(s[1..], pat, b);
      ContainsExtend((if pat <= s then b else []) + [s[0]], InsertBefore(s[1..], pat, b), [], b + pat);
      assert (if pat <= s then b else []) + [s[0]] + InsertBefore(s[1..], pat, b) + [] == InsertBefore(s, pat, b);
    }
  }

  // ---------------------------------------------------------------------
  // ASCII lowercasing
  // ---------------------------------------------------------------------

  function LowerChar(c: char): char
  {
    if 'A' <= c <= 'Z' then (c as int + 32) as char else c
  }

  /** `s.lower()` restricted to the ASCII letters. */
  function Lower(s: string): (r: string)
    ensures |r| == |s| && forall k :: 0 <= k < |s| ==> r[k] == LowerChar(s[k])
  {
    seq(|s|, k requires 0 <= k < |s| => LowerChar(s[k]))
  }

  lemma LowerConcat(a: string, b: string)
    ensures Lower(a + b) == Lower(a) + Lower(b)
  {
  }

  /** A character that is not a letter is in the lowercased text only where
      it is in the text. */
  lemma NotInLower(s: string, c: char)
    requires !('A' <= c <= 'Z') && c !in Lower(s)
    ensures c !in s
  {
    forall k | 0 <= k < |s| ensures s[k] != c {
      assert Lower(s)[k] == LowerChar(s[k]);
    }
  }

  lemma ContainsLower(s: string, n: string)
    requires Contains(s, n)
    ensures Contains(Lower(s), Lower(n))
  {
    var i :| 0 <= i <= |s| && n <= s[i..];
    assert Lower(n) <= Lower(s)[i..];
  }

  /** An occurrence in the lowercased text comes from some occurrence in the
      original text that lowercases to it. */
  lemma ContainsInLower(s: string, n: string) returns (w: string)
    requires Contains(Lower(s), n)
    ensures Contains(s, w) && Lower(w) == n
  {
    var i :| 0 <= i <= |s| && n <= Lower(s)[i..];
    w := s[i..i + |n|];
    assert w <= s[i..];
  }

  // ---------------------------------------------------------------------
  // `str(i)` for integers
  // ---------------------------------------------------------------------

  predicate IsDigit(c: char)
  {
    '0' <= c <= '9'
  }

  function Digit(d: nat): (c: char)
    requires d < 10
    ensures IsDigit(c) && c as int - '0' as int == d
  {
    "0123456789"[d]
  }

  /** Decimal digits of `n`, without leading zeros. */
  function NatToString(n: nat): (r: string)
    ensures r != [] && All(r, IsDigit)
    ensures |r| > 1 ==> r[0] != '0'
  {
    if n < 10 then [Digit(n)]
    else
      AllConcat(NatToString(n / 10), [Digit(n % 10)], IsDigit);
      NatToString(n / 10) + [Digit(n % 10)]
  }

  /** `str(i)`: a minus sign for negative numbers, then the digits. */
  function IntToString(i: int): (r: string)
    ensures r != [] && All(r[1..], IsDigit)
    ensures r[0] == '-' <==> i < 0
    ensures r[0] != '-' ==> IsDigit(r[0])
    ensures i >= 0 ==> All(r, IsDigit) && DigitsValue(r) == i
    ensures i < 0 ==> DigitsValue(r[1..]) == -i
    ensures i >= 0 && |r| > 1 ==> r[0] != '0'
    ensures i < 0 ==> |r| > 1 && (|r| > 2 ==> r[1] != '0')
  {
    if i < 0 then
      assert ("-" + NatToString(-i))[1..] == NatToString(-i);
      NatToStringRoundTrip(-i);
      "-" + NatToString(-i)
    else
      AllSlice(NatToString(i), 1, |NatToString(i)|, IsDigit);
      NatToStringRoundTrip(i);
      NatToString(i)
  }

  /** The number a string of decimal digits denotes. */
  function DigitsValue(s: string): nat
    requires All(s, IsDigit)
  {
    if s == [] then 0
    else
      AllSlice(s, 0, |s| - 1, IsDigit);
      DigitsValue(s[..|s| - 1]) * 10 + (s[|s| - 1] as int - '0' as int)
  }

  lemma {:induction false} NatToStringRoundTrip(n: nat)
    ensures DigitsValue(NatToString(n)) == n
  {
    if n >= 10 {
      var r := NatToString(n);
      assert r[..|r| - 1] == NatToString(n / 10);
      NatToStringRoundTrip(n / 10);
    }
  }
}
