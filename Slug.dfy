/** The slug generator (`slugify`) and the name of the folder a generated site
    is saved in. */
module Slug {
  import opened Text

  /** The characters a slug is made of: `a-z`, `0-9` and `-`. */
  predicate IsSlugChar(c: char)
  {
    'a' <= c <= 'z' || '0' <= c <= '9' || c == '-'
  }

  /** The characters that the deletion of `[^a-z0-9\- ]` leaves in place. */
  predicate IsKept(c: char)
  {
    IsSlugChar(c) || c == ' '
  }

  /** `re.sub(r"[^a-z0-9\- ]", "", s)`: deletes every other character. */
  function Keep(s: string): (r: string)
    ensures |r| <= |s|
    ensures All(r, IsKept)
    ensures All(s, IsKept) ==> r == s
  {
    if s == [] then []
    else (if IsKept(s[0]) then [s[0]] else []) + Keep(s[1..])
  }

  /** `re.sub(r"\s+", "-", s)`: every maximal run of whitespace becomes a
      single hyphen. */
  function CollapseSpaces(s: string): (r: string)
    ensures |r| <= |s|
    decreases |s|
  {
    if s == [] then []
    else if IsSpace(s[0]) then "-" + CollapseSpaces(StripLeft(s[1..], IsSpace))
    else [s[0]] + CollapseSpaces(s[1..])
  }

  /** Deleting works character by character: the kept characters of a text
      survive in their order. */
  lemma {:induction false} KeepConcat(a: string, b: string)
    ensures Keep(a + b) == Keep(a) + Keep(b)
    decreases |a|
  {
    if a == [] {
      assert a + b == b;
    } else {
      var h := if IsKept(a[0]) then [a[0]] else [];
      var s := a + b;
      assert s[0] == a[0] && s[1..] == a[1..] + b;
      assert Keep(s) == h + Keep(a[1..] + b);
      KeepConcat(a[1..], b);
      assert Keep(a) == h + Keep(a[1..]);
      assert h + (Keep(a[1..]) + Keep(b)) == h + Keep(a[1..]) + Keep(b);
    }
  }

  /** One character is kept exactly when it is in the class. */
  lemma KeepChar(c: char)
    ensures Keep([c]) == if IsKept(c) then [c] else []
  {
    assert [c][1..] == [];
  }

  /** Collapsing the whitespace of kept characters leaves slug characters. */
  lemma {:induction false} CollapseKept(s: string)
    requires All(s, IsKept)
    ensures All(CollapseSpaces(s), IsSlugChar)
    decreases |s|
  {
    if s != [] {
      AllSlice(s, 1, |s|, IsKept);
      if IsSpace(s[0]) {
        var t := StripLeft(s[1..], IsSpace);
        AllSlice(s[1..], |s[1..]| - |t|, |s[1..]|, IsKept);
        CollapseKept(t);
        AllConcat("-", CollapseSpaces(t), IsSlugChar);
      } else {
        assert IsSlugChar(s[0]);
        CollapseKept(s[1..]);
        AllConcat([s[0]], CollapseSpaces(s[1..]), IsSlugChar);
      }
    }
  }

  /** What `slugify` has before its `or "site"`: lowercase, delete, collapse
      spaces to hyphens, strip hyphens from both ends. */
  function SlugCore(s: string): (r: string)
    ensures All(r, IsSlugChar)
    ensures r != [] ==> r[0] != '-' && r[|r| - 1] != '-'
  {
    var m := CollapseSpaces(Keep(Lower(s)));
    CollapseKept(Keep(Lower(s)));
    StripBothAll(m, IsHyphen, IsSlugChar);
    StripBoth(m, IsHyphen)
  }

  /** The token `slugify` falls back on when nothing is left. */
  const SiteToken := "site"

  lemma SiteIsSlug()
    ensures All(SiteToken, IsSlugChar) && SiteToken[0] != '-' && SiteToken[|SiteToken| - 1] != '-'
  {
  }

  /** `slugify(s)`: a non-empty, folder-safe token. */
  function Slugify(s: string): (r: string)
    ensures r != []
    ensures All(r, IsSlugChar)
    ensures r[0] != '-' && r[|r| - 1] != '-'
  {
    var core := SlugCore(s);
    SiteIsSlug();
    if core == [] then SiteToken else core
  }

  /** The fallback token appears exactly when nothing survives the filtering
      and stripping, or when what survives is itself `site`. */
  lemma SlugifyIsSite(s: string)
    ensures Slugify(s) == "site" <==> SlugCore(s) == "" || SlugCore(s) == "site"
    ensures SlugCore(s) != "" ==> Slugify(s) == SlugCore(s)
  {
  }

  /** A string made of slug characters with no hyphen at either end goes
      through every step of `slugify` unchanged. */
  lemma SlugCoreOfSlug(t: string)
    requires All(t, IsSlugChar)
    requires t != [] ==> t[0] != '-' && t[|t| - 1] != '-'
    ensures SlugCore(t) == t
  {
    assert Lower(t) == t;
    assert Keep(t) == t;
    CollapseSlugChars(t);
    StripBothUnchanged(t, IsHyphen);
  }

  /** `slugify(slugify(s)) == slugify(s)`. */
  lemma SlugifyIdempotent(s: string)
    ensures Slugify(Slugify(s)) == Slugify(s)
  {
    SlugCoreOfSlug(Slugify(s));
  }

  /** No whitespace is left after the collapse. */
  lemma {:induction false} CollapseLeavesNoSpace(s: string)
    ensures forall k :: 0 <= k < |CollapseSpaces(s)| ==> !IsSpace(CollapseSpaces(s)[k])
    decreases |s|
  {
    if s != [] {
      if IsSpace(s[0]) {
        var t := StripLeft(s[1..], IsSpace);
        CollapseLeavesNoSpace(t);
        assert CollapseSpaces(s) == "-" + CollapseSpaces(t);
      } else {
        CollapseLeavesNoSpace(s[1..]);
        assert CollapseSpaces(s) == [s[0]] + CollapseSpaces(s[1..]);
      }
    }
  }

  /** Slug characters go through the collapse unchanged. */
  lemma {:induction false} CollapseSlugChars(s: string)
    requires All(s, IsSlugChar)
    ensures CollapseSpaces(s) == s
    decreases |s|
  {
    if s != [] {
      assert IsSlugChar(s[0]);
      AllSlice(s, 1, |s|, IsSlugChar);
      CollapseSlugChars(s[1..]);
    }
  }

  lemma {:induction false} StripLeftRun(w: string, b: string)
    requires All(w, IsSpace) && (b == [] || !IsSpace(b[0]))
    ensures StripLeft(w + b, IsSpace) == b
  {
    if w != [] {
      assert (w + b)[1..] == w[1..] + b;
      assert All(w[1..], IsSpace) by { AllSlice(w, 1, |w|, IsSpace); }
      StripLeftRun(w[1..], b);
    }
  }

  lemma CollapseCons(c: char, t: string)
    requires !IsSpace(c)
    ensures CollapseSpaces([c] + t) == [c] + CollapseSpaces(t)
  {
    assert ([c] + t)[1..] == t;
  }

  lemma CollapseLeadingRun(w: string, b: string)
    requires w != [] && All(w, IsSpace)
    requires b == [] || !IsSpace(b[0])
    ensures CollapseSpaces(w + b) == "-" + CollapseSpaces(b)
  {
    assert (w + b)[1..] == w[1..] + b;
    AllSlice(w, 1, |w|, IsSpace);
    StripLeftRun(w[1..], b);
  }

  /** A prefix of slug characters is kept as it is. */
  lemma {:induction false} CollapseSlugPrefix(a: string, t: string)
    requires All(a, IsSlugChar)
    ensures CollapseSpaces(a + t) == a + CollapseSpaces(t)
    decreases |a|
  {
    if a != [] {
      assert IsSlugChar(a[0]);
      assert a + t == [a[0]] + (a[1..] + t);
      CollapseCons(a[0], a[1..] + t);
      AllSlice(a, 1, |a|, IsSlugChar);
      CollapseSlugPrefix(a[1..], t);
      assert [a[0]] + (a[1..] + CollapseSpaces(t)) == a + CollapseSpaces(t);
    } else {
      assert a + t == t;
    }
  }

  /** A run of whitespace after a prefix of slug characters becomes one
      hyphen. */
  lemma CollapseRun(a: string, w: string, b: string)
    requires All(a, IsSlugChar)
    requires w != [] && All(w, IsSpace)
    requires b == [] || !IsSpace(b[0])
    ensures CollapseSpaces(a + (w + b)) == a + ("-" + CollapseSpaces(b))
  {
    CollapseSlugPrefix(a, w + b);
    CollapseLeadingRun(w, b);
  }

  lemma {:induction false} JoinAll(sep: string, words: seq<string>, p: char -> bool)
    requires All(sep, p) && forall i :: 0 <= i < |words| ==> All(words[i], p)
    ensures All(Join(sep, words), p)
  {
    if |words| >= 2 {
      JoinAll(sep, words[1..], p);
      AllConcat(words[0], sep, p);
      AllConcat(words[0] + sep, Join(sep, words[1..]), p);
    }
  }

  /** Words are non-empty runs of slug characters. */
  predicate Words(words: seq<string>)
  {
    forall i :: 0 <= i < |words| ==> words[i] != [] && All(words[i], IsSlugChar)
  }

  lemma {:induction false} CollapseWords(w: string, words: seq<string>)
    requires w != [] && All(w, IsSpace)
    requires |words| > 0 && Words(words)
    ensures CollapseSpaces(Join(w, words)) == Join("-", words)
  {
    if |words| == 1 {
      CollapseSlugChars(words[0]);
    } else {
      var rest := Join(w, words[1..]);
      JoinStartsWithFirstWord(w, words[1..]);
      assert IsSlugChar(rest[0]);
      CollapseRun(words[0], w, rest);
      assert Join(w, words) == words[0] + (w + rest);
      CollapseWords(w, words[1..]);
      assert Join("-", words) == words[0] + ("-" + Join("-", words[1..]));
    }
  }

  /** Words of slug characters separated by runs of spaces come out joined
      by one hyphen per run, and the hyphens inside the words are kept: the
      names `a - b` and `a--b` give `a---b` and `a--b`. */
  lemma SlugifyWords(w: string, words: seq<string>)
    requires w != [] && forall k :: 0 <= k < |w| ==> w[k] == ' '
    requires |words| > 0 && Words(words)
    requires words[0][0] != '-' && words[|words| - 1][|words[|words| - 1]| - 1] != '-'
    ensures Slugify(Join(w, words)) == Join("-", words)
  {
    var s := Join(w, words);
    assert All(w, IsKept);
    assert forall i :: 0 <= i < |words| ==> All(words[i], IsKept);
    JoinAll(w, words, IsKept);
    assert Lower(s) == s;
    assert Keep(s) == s;
    assert All(w, IsSpace);
    CollapseWords(w, words);
    JoinStartsWithFirstWord("-", words);
    JoinEndsWithLastWord("-", words);
    StripBothUnchanged(Join("-", words), IsHyphen);
  }

  /** The two names of the doc comment above, worked out. */
  lemma SlugifyDoubleHyphen()
    ensures Slugify("a--b") == "a--b"
  {
    assert Join(" ", ["a--b"]) == "a--b";
    assert Join("-", ["a--b"]) == "a--b";
    SlugifyWords(" ", ["a--b"]);
  }

  lemma SlugifySpacedHyphen()
    ensures Slugify("a - b") == "a---b"
  {
    assert Words(["a", "-", "b"]);
    assert Join(" ", ["a", "-", "b"]) == "a - b";
    assert Join("-", ["a", "-", "b"]) == "a---b";
    SlugifyWords(" ", ["a", "-", "b"]);
  }

  /** A character outside the class disappears and its neighbours join. */
  lemma KeepDrops(a: string, c: char, b: string)
    requires !IsKept(c)
    ensures Keep(a + ([c] + b)) == Keep(a) + Keep(b)
  {
    KeepConcat(a, [c] + b);
    KeepConcat([c], b);
    KeepChar(c);
  }

  /** Two runs of kept characters, each followed by one to delete, come out
      joined. */
  lemma KeepAround(h: string, c: char, w: string, d: char)
    requires All(h, IsKept) && All(w, IsKept) && !IsKept(c) && !IsKept(d)
    ensures Keep(h + ([c] + (w + [d]))) == h + w
  {
    KeepDrops(h, c, w + [d]);
    KeepDrops(w, d, []);
    assert w + [d] == w + ([d] + []);
    assert w + [] == w;
  }

  /** A name with characters to delete: `Hello, World!` gives `hello-world`. */
  lemma SlugifyPunctuated()
    ensures Slugify("Hello, World!") == "hello-world"
  {
    PunctuatedLower();
    KeepAround("hello", ',', " world", '!');
    assert "hello" + " world" == "hello" + (" " + "world");
    PunctuatedCollapse();
    StripBothUnchanged("hello-world", IsHyphen);
  }

  lemma PunctuatedLower()
    ensures Lower("Hello, World!") == "hello" + ([','] + (" world" + ['!']))
  {
    assert Lower("Hello, World!") == "hello, world!";
  }

  lemma PunctuatedCollapse()
    ensures CollapseSpaces("hello" + (" " + "world")) == "hello-world"
  {
    assert All("hello", IsSlugChar) && All(" ", IsSpace) && All("world", IsSlugChar);
    CollapseRun("hello", " ", "world");
    CollapseSlugChars("world");
  }

  predicate IsFolderChar(c: char)
  {
    IsSlugChar(c) || c == '_'
  }

  /** `f"{int(time.time())}_{slugify(p.project_name)}"`, the folder of a run:
      folder-safe, the part after its only underscore is the slug, and the
      part before it is the decimal time stamp. */
  function RunFolder(epochSeconds: int, projectName: string): (r: string)
    ensures All(r, IsFolderChar)
    ensures '_' in r
    ensures forall k :: 0 <= k < |r| && r[k] == '_' ==> r[k + 1..] == Slugify(projectName)
    ensures var k := |r| - |Slugify(projectName)| - 1;
      0 < k < |r| && r[k] == '_'
      && (epochSeconds >= 0 ==> All(r[..k], IsDigit) && DigitsValue(r[..k]) == epochSeconds)
      && (epochSeconds < 0 ==> r[0] == '-' && All(r[1..k], IsDigit) && DigitsValue(r[1..k]) == -epochSeconds)
      && (epochSeconds >= 0 && k > 1 ==> r[0] != '0')
      && (epochSeconds < 0 ==> k > 1 && (k > 2 ==> r[1] != '0'))
  {
    var stamp := IntToString(epochSeconds);
    var slug := Slugify(projectName);
    StampIsFolderSafe(stamp);
    OnlyUnderscore(stamp, slug);
    StampPart(stamp, slug);
    stamp + "_" + slug
  }

  lemma StampIsFolderSafe(stamp: string)
    requires stamp != [] && All(stamp[1..], IsDigit) && (stamp[0] == '-' || IsDigit(stamp[0]))
    ensures All(stamp, IsSlugChar)
  {
    assert forall k :: 1 <= k < |stamp| ==> stamp[k] == stamp[1..][k - 1];
  }

  lemma OnlyUnderscore(stamp: string, slug: string)
    requires All(stamp, IsSlugChar) && All(slug, IsSlugChar)
    ensures All(stamp + "_" + slug, IsFolderChar)
    ensures '_' in stamp + "_" + slug
    ensures forall k :: 0 <= k < |stamp + "_" + slug| && (stamp + "_" + slug)[k] == '_' ==> (stamp + "_" + slug)[k + 1..] == slug
  {
    var r := stamp + "_" + slug;
    assert r[|stamp|] == '_';
    assert r[|stamp| + 1..] == slug;
    assert forall k :: 0 <= k < |r| && r[k] == '_' ==> k == |stamp|;
    forall k | 0 <= k < |r| ensures IsFolderChar(r[k]) {
      if k < |stamp| {
        assert r[k] == stamp[k];
      } else if k > |stamp| {
        assert r[k] == slug[k - |stamp| - 1];
      }
    }
  }

  lemma StampPart(stamp: string, slug: string)
    requires stamp != []
    ensures var r := stamp + "_" + slug;
      |r| - |slug| - 1 == |stamp| && r[..|stamp|] == stamp && r[1..|stamp|] == stamp[1..]
      && forall j :: 0 <= j < |stamp| ==> r[j] == stamp[j]
  {
    var r := stamp + "_" + slug;
    assert r[..|stamp|] == stamp;
  }
}
