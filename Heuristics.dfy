/** The rule-based page editor (`_heuristic_edit`): a colour rule, then three
    guarded insertions before `</body>`, applied in that order to the page,
    each reporting a line of the log when it fires. */
module Heuristics {
  import opened Text
  import opened Optional
  import Assembler

  // ---------------------------------------------------------------------
  // The colour asked for: the first match of `#([0-9a-f]{3,6})`
  // ---------------------------------------------------------------------

  /** A `#` followed by at least three lowercase hexadecimal digits starts at
      position `k`. */
  predicate HexAt(low: string, k: nat)
    requires k < |low|
  {
    low[k] == '#' && |Span(low[k + 1..], IsLowerHexDigit, 6)| >= 3
  }

  /** The leftmost position at or after `i` where a colour starts. */
  function FirstHexFrom(low: string, i: nat): (r: Option<nat>)
    requires i <= |low|
    ensures r.Some? ==> i <= r.value < |low| && HexAt(low, r.value)
    ensures r.Some? ==> forall j :: i <= j < r.value ==> !HexAt(low, j)
    ensures r.None? ==> forall j :: i <= j < |low| ==> !HexAt(low, j)
    decreases |low| - i
  {
    if i == |low| then None
    else if HexAt(low, i) then Some(i)
    else FirstHexFrom(low, i + 1)
  }

  /** `"#" + m.group(1)` for the leftmost match, taking as many digits as the
      greedy `{3,6}` does; `None` when there is no match. */
  function FindColour(low: string): (r: Option<string>)
    ensures r.None? <==> forall j :: 0 <= j < |low| ==> !HexAt(low, j)
    ensures r.Some? ==> 4 <= |r.value| <= 7 && r.value[0] == '#' && All(r.value[1..], IsLowerHexDigit)
  {
    match FirstHexFrom(low, 0)
    case None => None
    case Some(k) =>
      var d := Span(low[k + 1..], IsLowerHexDigit, 6);
      assert ("#" + d)[1..] == d;
      Some("#" + d)
  }

  /** The colour found is the one starting at the leftmost match, with every
      digit that follows it up to six. */
  lemma FindColourLeftmost(low: string) returns (k: nat)
    requires FindColour(low).Some?
    ensures k < |low| && HexAt(low, k)
    ensures forall j :: 0 <= j < k ==> !HexAt(low, j)
    ensures FindColour(low).value == "#" + Span(low[k + 1..], IsLowerHexDigit, 6)
  {
    k := FirstHexFrom(low, 0).value;
  }

  /** Searching the lowercased prompt finds a colour written in either case:
      a match starts at `k` exactly when the prompt has a `#` there followed by
      at least three hexadecimal digits of any case. */
  lemma HexAtLower(prompt: string, k: nat)
    requires k < |prompt|
    ensures HexAt(Lower(prompt), k) <==> prompt[k] == '#' && |Span(prompt[k + 1..], IsHexDigit, 6)| >= 3
  {
    var low := Lower(prompt);
    SpanAgrees(low[k + 1..], IsLowerHexDigit, prompt[k + 1..], IsHexDigit, 6);
  }

  // ---------------------------------------------------------------------
  // The substitution `re.sub(r"--brand:\s*#[0-9a-fA-F]{3,6}", rep, html)`
  // ---------------------------------------------------------------------

  const BrandKey := "--brand:"

  /** The length of the match of `#[0-9a-fA-F]{3,6}` at the start of `y`,
      or 0 when none starts there. */
  function HashMatch(y: string): (n: nat)
    ensures n <= |y|
    ensures n > 0 ==> 4 <= n <= 7
  {
    if y == [] || y[0] != '#' then 0
    else
      var d := Span(y[1..], IsHexDigit, 6);
      if |d| < 3 then 0 else 1 + |d|
  }

  /** The length of the match of `\s*#[0-9a-fA-F]{3,6}` at the start of `x`,
      or 0. `\s*` takes the whole run of whitespace: giving any back would
      leave a whitespace character where `#` is needed. */
  function SpacedMatch(x: string): (n: nat)
    ensures n <= |x|
  {
    var w := Span(x, IsSpace, |x|);
    var n := HashMatch(x[|w|..]);
    if n == 0 then 0 else |w| + n
  }

  /** The length of the match of `--brand:\s*#[0-9a-fA-F]{3,6}` at the start
      of `s`, or 0 when none starts there. */
  function BrandMatch(s: string): (n: nat)
    ensures n <= |s|
  {
    if !(BrandKey <= s) then 0
    else
      var n := SpacedMatch(s[8..]);
      if n == 0 then 0 else 8 + n
  }

  /** A match of `#` and digits is `#` and the longest run of digits, up to
      six, that follows it. */
  lemma HashMatchShape(y: string)
    requires HashMatch(y) > 0
    ensures y[0] == '#' && forall k :: 1 <= k < HashMatch(y) ==> IsHexDigit(y[k])
    ensures HashMatch(y) < 7 && HashMatch(y) < |y| ==> !IsHexDigit(y[HashMatch(y)])
  {
    var d := Span(y[1..], IsHexDigit, 6);
    assert forall k :: 0 <= k < |d| ==> d[k] == y[k + 1];
  }

  /** A match of whitespace, `#` and digits is a whole run of `m`
      whitespace characters followed by a match of `#` and digits. */
  lemma SpacedMatchShape(x: string) returns (m: nat)
    requires SpacedMatch(x) > 0
    ensures m <= |x| && All(x[..m], IsSpace)
    ensures HashMatch(x[m..]) > 0 && SpacedMatch(x) == m + HashMatch(x[m..])
  {
    var w := Span(x, IsSpace, |x|);
    m := |w|;
    assert w == x[..m];
  }

  /** A match is the key, a whole run of `m` whitespace characters, and a
      match of `#` and digits (whose shape `HashMatchShape` gives). */
  lemma BrandMatchShape(s: string) returns (m: nat)
    requires BrandMatch(s) > 0
    ensures s[..8] == BrandKey && 8 + m <= |s| && All(s[8..][..m], IsSpace)
    ensures HashMatch(s[8 + m..]) > 0 && BrandMatch(s) == 8 + m + HashMatch(s[8 + m..])
  {
    var x := s[8..];
    m := SpacedMatchShape(x);
    assert x[m..] == s[8 + m..];
  }

  /** After a whole run of whitespace, the match looks at what follows the
      `#`. */
  lemma SpacedAfterRun(w: string, r: string)
    requires All(w, IsSpace)
    ensures SpacedMatch(w + ("#" + r)) ==
      if |Span(r, IsHexDigit, 6)| < 3 then 0 else 1 + |w| + |Span(r, IsHexDigit, 6)|
  {
    var x := w + ("#" + r);
    SpanOfRun(w, "#" + r, IsSpace, |x|);
    assert x[|w|..] == "#" + r;
    assert ("#" + r)[1..] == r;
  }

  /** After the key and a whole run of whitespace, the match looks at what
      follows the `#`. */
  lemma BrandAfterKey(w: string, r: string)
    requires All(w, IsSpace)
    ensures BrandMatch(BrandKey + (w + ("#" + r))) ==
      if |Span(r, IsHexDigit, 6)| < 3 then 0 else 9 + |w| + |Span(r, IsHexDigit, 6)|
  {
    var x := w + ("#" + r);
    assert (BrandKey + x)[8..] == x;
    SpacedAfterRun(w, r);
  }

  /** Whatever starts with the key, whitespace, `#` and three hexadecimal
      digits is a match. */
  lemma BrandMatchFound(s: string, w: string, d: string)
    requires BrandKey + w + "#" + d <= s
    requires All(w, IsSpace) && |d| == 3 && All(d, IsHexDigit)
    ensures BrandMatch(s) > 0
  {
    var u := s[|BrandKey + w + "#" + d|..];
    assert s == BrandKey + (w + ("#" + (d + u)));
    BrandAfterKey(w, d + u);
    SpanCoversRun(d, u, IsHexDigit, 6);
  }

  /** The match takes the whole run of whitespace and as many digits as
      there are, up to six. */
  lemma BrandMatchExact(w: string, d: string, t: string)
    requires All(w, IsSpace) && 3 <= |d| <= 6 && All(d, IsHexDigit)
    requires |d| < 6 && t != [] ==> !IsHexDigit(t[0])
    ensures BrandMatch(BrandKey + w + "#" + d + t) == 9 + |w| + |d|
  {
    assert BrandKey + w + "#" + d + t == BrandKey + (w + ("#" + (d + t)));
    BrandAfterKey(w, d + t);
    SpanOfRun(d, t, IsHexDigit, 6);
  }

  /** The left-to-right scan of `re.sub`: at each match the replacement is
      emitted and the scan resumes after the match. */
  function SubBrand(s: string, rep: string): string
    decreases |s|
  {
    if s == [] then []
    else if BrandMatch(s) > 0 then
      rep + SubBrand(s[BrandMatch(s)..], rep)
    else [s[0]] + SubBrand(s[1..], rep)
  }

  /** Without a match the substitution leaves the page as it is. */
  lemma {:induction false} SubBrandNoMatch(s: string, rep: string)
    requires forall k :: 0 <= k <= |s| ==> BrandMatch(s[k..]) == 0
    ensures SubBrand(s, rep) == s
    decreases |s|
  {
    if s != [] {
      assert s[0..] == s;
      forall k | 0 <= k <= |s| - 1 ensures BrandMatch(s[1..][k..]) == 0 {
        assert s[1..][k..] == s[k + 1..];
      }
      SubBrandNoMatch(s[1..], rep);
    }
  }

  /** A page that never mentions the key is left as it is. */
  lemma SubBrandKeyless(s: string, rep: string)
    requires !Contains(s, BrandKey)
    ensures SubBrand(s, rep) == s
  {
    forall k | 0 <= k <= |s| ensures BrandMatch(s[k..]) == 0 {
      if BrandKey <= s[k..] {
        assert Contains(s, BrandKey);
      }
    }
    SubBrandNoMatch(s, rep);
  }

  /** With a match anywhere, the replacement appears in the result. */
  lemma {:induction false} SubBrandReplaces(s: string, rep: string, k: nat)
    requires k <= |s| && BrandMatch(s[k..]) > 0
    ensures Contains(SubBrand(s, rep), rep)
    decreases |s|
  {
    if s == [] {
    } else if BrandMatch(s) > 0 {
      ContainsStart(rep, SubBrand(s[BrandMatch(s)..], rep));
    } else {
      assert k > 0 by { assert s[0..] == s; }
      assert s[1..][k - 1..] == s[k..];
      SubBrandReplaces(s[1..], rep, k - 1);
      ContainsRight([s[0]], SubBrand(s[1..], rep), rep);
    }
  }

  /** Where no match starts, the scan copies the page through. */
  lemma {:induction false} SubBrandSkips(s: string, rep: string, k: nat)
    requires k <= |s| && forall i :: 0 <= i < k ==> BrandMatch(s[i..]) == 0
    ensures SubBrand(s, rep) == s[..k] + SubBrand(s[k..], rep)
    decreases k
  {
    if k == 0 {
      assert s[..0] == [] && s[0..] == s;
    } else {
      var t := s[1..];
      assert s[0..] == s;
      assert SubBrand(s, rep) == [s[0]] + SubBrand(t, rep);
      forall i | 0 <= i < k - 1 ensures BrandMatch(t[i..]) == 0 {
        assert t[i..] == s[i + 1..];
      }
      SubBrandSkips(t, rep, k - 1);
      ConsSplit(s, k, SubBrand(s[k..], rep));
    }
  }

  /** The scan copies the page up to the leftmost match, emits the
      replacement there, and resumes right after the match. */
  lemma SubBrandAt(s: string, rep: string, k: nat)
    requires k <= |s| && forall i :: 0 <= i < k ==> BrandMatch(s[i..]) == 0
    requires BrandMatch(s[k..]) > 0
    ensures SubBrand(s, rep) == s[..k] + rep + SubBrand(s[k + BrandMatch(s[k..])..], rep)
  {
    SubBrandSkips(s, rep, k);
    SubBrandStep(s[k..], rep);
    assert s[k..][BrandMatch(s[k..])..] == s[k + BrandMatch(s[k..])..];
  }

  /** The characters a match can cover: those of the key, whitespace, `#`
      and hexadecimal digits. */
  predicate MatchChar(c: char)
  {
    c in BrandKey || IsSpace(c) || c == '#' || IsHexDigit(c)
  }

  lemma MatchCovers(s: string, i: nat)
    requires BrandMatch(s) > 0 && i < BrandMatch(s)
    ensures MatchChar(s[i])
  {
    var m := BrandMatchShape(s);
    if i < 8 {
      assert s[i] == s[..8][i] == BrandKey[i];
    } else if i < 8 + m {
      assert s[i] == s[8..][..m][i - 8];
    } else {
      var y := s[8 + m..];
      HashMatchShape(y);
      assert s[i] == y[i - 8 - m];
    }
  }

  /** Text without `-` at the start of the page is copied through, one
      character at a time: no match can start inside it. */
  lemma {:induction false} SubBrandKeepsPrefix(t: string, rep: string, n: string)
    requires n <= t && '-' !in n
    ensures n <= SubBrand(t, rep)
    decreases |n|
  {
    if n != [] {
      assert t[0] == n[0] && BrandKey[0] == '-';
      assert SubBrand(t, rep) == [t[0]] + SubBrand(t[1..], rep);
      assert n[1..] <= t[1..];
      SubBrandKeepsPrefix(t[1..], rep, n[1..]);
    }
  }

  /** Text without `-` whose first character no match can cover survives
      the substitution. */
  lemma {:induction false} SubBrandKeeps(s: string, rep: string, n: string)
    requires n != [] && '-' !in n && !MatchChar(n[0]) && Contains(s, n)
    ensures Contains(SubBrand(s, rep), n)
    decreases |s|
  {
    var i :| 0 <= i <= |s| && n <= s[i..];
    if i == 0 {
      assert s[0..] == s;
      SubBrandKeepsPrefix(s, rep, n);
      assert n <= SubBrand(s, rep)[0..];
    } else if BrandMatch(s) > 0 {
      var m := BrandMatch(s);
      assert i >= m by {
        if i < m { MatchCovers(s, i); }
      }
      assert s[m..][i - m..] == s[i..];
      SubBrandKeeps(s[m..], rep, n);
      ContainsRight(rep, SubBrand(s[m..], rep), n);
    } else {
      assert s[1..][i - 1..] == s[i..];
      SubBrandKeeps(s[1..], rep, n);
      ContainsRight([s[0]], SubBrand(s[1..], rep), n);
    }
  }

  // ---------------------------------------------------------------------
  // The rules
  // ---------------------------------------------------------------------

  /** What a rule reports when it fires; the order of the constructors is
      the order the rules run in. */
  datatype Note = ColourSet(hex: string) | FaqAdded | CtaAdded | StripeAdded

  function Rank(n: Note): nat
  {
    match n
    case ColourSet(_) => 0
    case FaqAdded => 1
    case CtaAdded => 2
    case StripeAdded => 3
  }

  /** The text of a log line. */
  function Render(n: Note): string
  {
    match n
    case ColourSet(hex) => "✔ Couleur de marque -> " + hex
    case FaqAdded => "✔ Section FAQ ajoutée"
    case CtaAdded => "✔ CTA ajouté"
    case StripeAdded => "✔ Bouton Stripe démo inséré"
  }

  /** The information emoji: U+2139 with the emoji presentation selector. */
  const InfoSign := "ℹ\U{FE0F}"
  const NothingLine := InfoSign + " Rien de spécifique détecté, aucun changement majeur."

  /** The page being edited and the notes of the rules fired so far. */
  datatype Edit = Edit(html: string, notes: seq<Note>)

  /** The colour rule acts when the prompt speaks of a colour and names one. */
  function ColourValue(low: string): Option<string>
  {
    if Contains(low, "couleur") || Contains(low, "color") then FindColour(low) else None
  }

  function ColourStep(e: Edit, low: string): Edit
  {
    match ColourValue(low)
    case None => e
    case Some(hex) => Edit(SubBrand(e.html, BrandKey + hex), e.notes + [ColourSet(hex)])
  }

  const FaqBlock := Assembler.FaqOpen + Assembler.FaqMarker + FaqQuestion
  const FaqQuestion := "</h2><div class='space-y-3'><details class='bg-white rounded-xl p-4 shadow'><summary class='font-medium'>Question 1</summary><p class='text-slate-600 mt-2'>Réponse.</p></details></div></section>"

  /** The call-to-action block inserted is the template's own section. */
  const CtaBlock := Assembler.Cta()

  /** The demo payment block; its `Stripe`, lowercased, is the marker the
      rule looks for. */
  const StripeScript := "<script>function fakeCheckout(){alert('"
  const StripeBlock := StripeScript + "Stripe" + StripeRest
  const StripeRest := " (démo)')}</script><section class='max-w-5xl mx-auto px-6 py-12 text-center'><button onclick=\"fakeCheckout()\" class='px-6 py-3 bg-emerald-600 text-white rounded-xl'>Payer avec Stripe (démo)</button></section>"

  /** `html.replace("</body>", block + "</body>")`. */
  function InsertBlock(html: string, block: string): string
  {
    ReplaceAll(html, Assembler.BodyClose, block + Assembler.BodyClose)
  }

  /** The guards: the trigger word is in the lowercased prompt and the
      rule's marker is not yet in the page. */
  predicate FaqFires(html: string, low: string)
  {
    Contains(low, "faq") && !Contains(html, Assembler.FaqMarker)
  }

  predicate CtaFires(html: string, low: string)
  {
    Contains(low, "cta") && !Contains(html, Assembler.CtaMarker)
  }

  /** The Stripe marker is looked for in the lowercased page. */
  predicate StripeFires(html: string, low: string)
  {
    Contains(low, "stripe") && !Contains(Lower(html), "stripe")
  }

  function FaqStep(e: Edit, low: string): Edit
  {
    if FaqFires(e.html, low) then Edit(InsertBlock(e.html, FaqBlock), e.notes + [FaqAdded]) else e
  }

  function CtaStep(e: Edit, low: string): Edit
  {
    if CtaFires(e.html, low) then Edit(InsertBlock(e.html, CtaBlock), e.notes + [CtaAdded]) else e
  }

  function StripeStep(e: Edit, low: string): Edit
  {
    if StripeFires(e.html, low) then Edit(InsertBlock(e.html, StripeBlock), e.notes + [StripeAdded]) else e
  }

  /** The three insertion rules in their order. */
  function Insertions(e: Edit, low: string): Edit
  {
    StripeStep(CtaStep(FaqStep(e, low), low), low)
  }

  /** Every rule on the page, starting with no notes. */
  function Rules(html: string, prompt: string): Edit
  {
    var low := Lower(prompt);
    Insertions(ColourStep(Edit(html, []), low), low)
  }

  /** The log text: the lines of the notes joined by newlines, or the single
      "nothing detected" line. */
  function LogText(notes: seq<Note>): string
  {
    if notes == [] then NothingLine else Join("\n", Lines(notes))
  }

  function Lines(notes: seq<Note>): seq<string>
  {
    seq(|notes|, i requires 0 <= i < |notes| => Render(notes[i]))
  }

  /** `_heuristic_edit(html, prompt)`: the edited page and its log. */
  function HeuristicEdit(html: string, prompt: string): (string, string)
  {
    var e := Rules(html, prompt);
    (e.html, LogText(e.notes))
  }

  // ---------------------------------------------------------------------
  // The log
  // ---------------------------------------------------------------------

  /** Notes come in rule order, each rule at most once, all below `bound`. */
  predicate InOrder(notes: seq<Note>, bound: nat)
  {
    && (forall i :: 0 <= i < |notes| ==> Rank(notes[i]) < bound)
    && (forall i, j :: 0 <= i < j < |notes| ==> Rank(notes[i]) < Rank(notes[j]))
  }

  lemma AppendInOrder(notes: seq<Note>, n: Note)
    requires InOrder(notes, Rank(n))
    ensures InOrder(notes + [n], Rank(n) + 1)
  {
  }

  lemma FaqInOrder(e: Edit, low: string)
    requires InOrder(e.notes, 1)
    ensures InOrder(FaqStep(e, low).notes, 2)
  {
    if FaqFires(e.html, low) { AppendInOrder(e.notes, FaqAdded); }
  }

  lemma CtaInOrder(e: Edit, low: string)
    requires InOrder(e.notes, 2)
    ensures InOrder(CtaStep(e, low).notes, 3)
  {
    if CtaFires(e.html, low) { AppendInOrder(e.notes, CtaAdded); }
  }

  lemma StripeInOrder(e: Edit, low: string)
    requires InOrder(e.notes, 3)
    ensures InOrder(StripeStep(e, low).notes, 4)
  {
    if StripeFires(e.html, low) { AppendInOrder(e.notes, StripeAdded); }
  }

  /** Notes with distinct ranks below `bound` number at most `bound`. */
  lemma {:induction false} InOrderLength(notes: seq<Note>, bound: nat)
    requires InOrder(notes, bound)
    ensures |notes| <= bound
  {
    if notes != [] {
      var last := notes[|notes| - 1];
      assert InOrder(notes[..|notes| - 1], Rank(last));
      InOrderLength(notes[..|notes| - 1], Rank(last));
    }
  }

  /** The log lines follow the rules' order, colour, FAQ, CTA, Stripe, with at
      most one line per rule. */
  lemma RulesLogInOrder(html: string, prompt: string)
    ensures InOrder(Rules(html, prompt).notes, 4)
    ensures |Rules(html, prompt).notes| <= 4
  {
    var low := Lower(prompt);
    var e0 := ColourStep(Edit(html, []), low);
    assert InOrder(e0.notes, 1);
    FaqInOrder(e0, low);
    CtaInOrder(FaqStep(e0, low), low);
    StripeInOrder(CtaStep(FaqStep(e0, low), low), low);
    InOrderLength(Rules(html, prompt).notes, 4);
  }

  /** Every line a rule reports starts with a check mark. */
  lemma RenderStart(n: Note)
    ensures Render(n) != [] && Render(n)[0] == '✔'
  {
  }

  /** A colour note carries what `FindColour` found. */
  predicate ValidNote(n: Note)
  {
    n.ColourSet? ==> |n.hex| >= 4 && n.hex[0] == '#' && All(n.hex[1..], IsLowerHexDigit)
  }

  predicate NotesValid(notes: seq<Note>)
  {
    forall i :: 0 <= i < |notes| ==> ValidNote(notes[i])
  }

  lemma ColourStepValid(html: string, low: string)
    ensures NotesValid(ColourStep(Edit(html, []), low).notes)
  {
  }

  lemma InsertionsValid(e: Edit, low: string)
    requires NotesValid(e.notes)
    ensures NotesValid(Insertions(e, low).notes)
  {
    var f := FaqStep(e, low);
    assert NotesValid(f.notes);
    var c := CtaStep(f, low);
    assert NotesValid(c.notes);
  }

  /** Every colour the log reports is a `#` and at least three lowercase
      hexadecimal digits. */
  lemma RulesNotesValid(html: string, prompt: string)
    ensures NotesValid(Rules(html, prompt).notes)
  {
    var low := Lower(prompt);
    ColourStepValid(html, low);
    InsertionsValid(ColourStep(Edit(html, []), low), low);
  }

  /** No line of the log ends in whitespace. */
  lemma RenderEnd(n: Note)
    requires ValidNote(n)
    ensures Render(n) != [] && !IsSpace(Render(n)[|Render(n)| - 1])
  {
    if n.ColourSet? {
      var hex := n.hex;
      assert hex[|hex| - 1] == hex[1..][|hex| - 2];
    }
  }

  lemma NothingLineTrimmed()
    ensures NothingLine != [] && !IsSpace(NothingLine[0]) && !IsSpace(NothingLine[|NothingLine| - 1])
  {
    assert NothingLine[0] == 'ℹ';
    assert NothingLine[|NothingLine| - 1] == '.';
  }

  lemma LinesTrimmed(notes: seq<Note>)
    requires notes != [] && NotesValid(notes)
    ensures var log := Join("\n", Lines(notes));
      log != [] && !IsSpace(log[0]) && !IsSpace(log[|log| - 1])
  {
    var lines := Lines(notes);
    RenderStart(notes[0]);
    RenderEnd(notes[|notes| - 1]);
    JoinStartsWithFirstWord("\n", lines);
    JoinEndsWithLastWord("\n", lines);
  }

  /** A log of valid notes starts and ends with a character that is not
      whitespace. */
  lemma LogTrimmed(notes: seq<Note>)
    requires NotesValid(notes)
    ensures var log := LogText(notes);
      log != [] && !IsSpace(log[0]) && !IsSpace(log[|log| - 1])
  {
    if notes == [] {
      NothingLineTrimmed();
    } else {
      LinesTrimmed(notes);
    }
  }

  /** The log of the rules starts and ends with a character that is not
      whitespace, so stripping it changes nothing. */
  lemma LogTextTrimmed(html: string, prompt: string)
    ensures var log := HeuristicEdit(html, prompt).1;
      log != [] && !IsSpace(log[0]) && !IsSpace(log[|log| - 1])
  {
    RulesNotesValid(html, prompt);
    LogTrimmed(Rules(html, prompt).notes);
  }

  /** The "nothing detected" line is the log exactly when there are no
      notes; otherwise the log is the notes' lines joined by newlines. */
  lemma NothingLineExactly(notes: seq<Note>)
    ensures notes == [] <==> LogText(notes) == NothingLine
    ensures notes != [] ==> LogText(notes) == Join("\n", Lines(notes))
  {
    if notes != [] {
      RenderStart(notes[0]);
      JoinStartsWithFirstWord("\n", Lines(notes));
      assert NothingLine[0] == 'ℹ';
    }
  }

  /** When no rule fires the page comes back unchanged and the log is the
      single "nothing detected" line; that line is the log exactly when no
      rule fired, and otherwise the log is the rules' lines joined by
      newlines. */
  lemma NothingDetected(html: string, prompt: string)
    ensures Rules(html, prompt).notes == [] ==> HeuristicEdit(html, prompt) == (html, NothingLine)
    ensures Rules(html, prompt).notes == [] <==> HeuristicEdit(html, prompt).1 == NothingLine
    ensures Rules(html, prompt).notes != [] ==> HeuristicEdit(html, prompt).1 == Join("\n", Lines(Rules(html, prompt).notes))
  {
    NothingLineExactly(Rules(html, prompt).notes);
  }

  // ---------------------------------------------------------------------
  // The insertions
  // ---------------------------------------------------------------------

  /** Replacing `</body>` by the block followed by `</body>` places the block
      in front of every `</body>` and changes nothing else. */
  lemma InsertBlockIsInsertBefore(html: string, block: string)
    ensures InsertBlock(html, block) == InsertBefore(html, Assembler.BodyClose, block)
  {
    ReplaceIsInsertBefore(html, Assembler.BodyClose, block);
  }

  /** A page without `</body>` is left as it is by every insertion. */
  lemma InsertBlockWithoutBody(html: string, block: string)
    requires !Contains(html, Assembler.BodyClose)
    ensures InsertBlock(html, block) == html
  {
    ReplaceAllAbsent(html, Assembler.BodyClose, block + Assembler.BodyClose);
  }

  /** Text without `<` in the page is still there after an insertion. */
  lemma InsertBlockKeeps(html: string, block: string, n: string)
    requires '<' !in n && Contains(html, n)
    ensures Contains(InsertBlock(html, block), n)
  {
    InsertBlockIsInsertBefore(html, block);
    InsertBeforeKeeps(html, Assembler.BodyClose, block, n);
  }

  /** With a `</body>` in the page, the block and a `</body>` are in the
      result. */
  lemma InsertBlockAdds(html: string, block: string, n: string)
    requires Contains(html, Assembler.BodyClose) && Contains(block, n)
    ensures Contains(InsertBlock(html, block), n)
  {
    InsertBlockIsInsertBefore(html, block);
    InsertBeforeInserts(html, Assembler.BodyClose, block);
    ContainsLeft(block, Assembler.BodyClose, n);
    ContainsTransitive(InsertBlock(html, block), block + Assembler.BodyClose, n);
  }

  lemma InsertBlockKeepsBody(html: string, block: string)
    requires Contains(html, Assembler.BodyClose)
    ensures Contains(InsertBlock(html, block), Assembler.BodyClose)
  {
    InsertBlockIsInsertBefore(html, block);
    InsertBeforeInserts(html, Assembler.BodyClose, block);
    ContainsEnd(block, Assembler.BodyClose);
    ContainsTransitive(InsertBlock(html, block), block + Assembler.BodyClose, Assembler.BodyClose);
  }

  /** The lowercased page keeps its `stripe` through an insertion. */
  lemma InsertBlockKeepsStripe(html: string, block: string)
    requires Contains(Lower(html), "stripe")
    ensures Contains(Lower(InsertBlock(html, block)), "stripe")
  {
    var w := ContainsInLower(html, "stripe");
    NotInLower(w, '<');
    InsertBlockKeeps(html, block, w);
    ContainsLower(InsertBlock(html, block), w);
  }

  /** Each block carries the marker its rule looks for. */
  lemma FaqBlockMarked()
    ensures Contains(FaqBlock, Assembler.FaqMarker)
  {
    ContainsInfix(Assembler.FaqOpen, Assembler.FaqMarker, FaqQuestion);
  }

  lemma CtaBlockMarked()
    ensures Contains(CtaBlock, Assembler.CtaMarker)
  {
    ContainsInfix(Assembler.CtaOpen, Assembler.CtaMarker, Assembler.CtaClose);
  }

  lemma StripeBlockMarked()
    ensures Contains(Lower(StripeBlock), "stripe")
  {
    LowerConcat(StripeScript + "Stripe", StripeRest);
    LowerConcat(StripeScript, "Stripe");
    assert Lower("Stripe") == "stripe";
    ContainsInfix(Lower(StripeScript), "stripe", Lower(StripeRest));
  }

  /** A guard that is off stays off through an insertion into a page with a
      `</body>`, and the `</body>` stays. */
  lemma InsertBlockSettled(html: string, block: string, low: string)
    requires Contains(html, Assembler.BodyClose)
    ensures Contains(InsertBlock(html, block), Assembler.BodyClose)
    ensures !FaqFires(html, low) ==> !FaqFires(InsertBlock(html, block), low)
    ensures !CtaFires(html, low) ==> !CtaFires(InsertBlock(html, block), low)
    ensures !StripeFires(html, low) ==> !StripeFires(InsertBlock(html, block), low)
  {
    InsertBlockKeepsBody(html, block);
    if Contains(html, Assembler.FaqMarker) {
      InsertBlockKeeps(html, block, Assembler.FaqMarker);
    }
    if Contains(html, Assembler.CtaMarker) {
      InsertBlockKeeps(html, block, Assembler.CtaMarker);
    }
    if Contains(Lower(html), "stripe") {
      InsertBlockKeepsStripe(html, block);
    }
  }

  lemma InsertStripeMarks(html: string)
    requires Contains(html, Assembler.BodyClose)
    ensures Contains(Lower(InsertBlock(html, StripeBlock)), "stripe")
  {
    StripeBlockMarked();
    InsertBlockIsInsertBefore(html, StripeBlock);
    InsertBeforeInserts(html, Assembler.BodyClose, StripeBlock);
    ContainsLower(InsertBlock(html, StripeBlock), StripeBlock + Assembler.BodyClose);
    LowerConcat(StripeBlock, Assembler.BodyClose);
    ContainsLeft(Lower(StripeBlock), Lower(Assembler.BodyClose), "stripe");
    ContainsTransitive(Lower(InsertBlock(html, StripeBlock)), Lower(StripeBlock) + Lower(Assembler.BodyClose), "stripe");
  }

  lemma FaqSettles(e: Edit, low: string)
    requires Contains(e.html, Assembler.BodyClose)
    ensures Contains(FaqStep(e, low).html, Assembler.BodyClose) && !FaqFires(FaqStep(e, low).html, low)
  {
    if FaqFires(e.html, low) {
      FaqBlockMarked();
      InsertBlockAdds(e.html, FaqBlock, Assembler.FaqMarker);
      InsertBlockKeepsBody(e.html, FaqBlock);
    }
  }

  lemma CtaSettles(e: Edit, low: string)
    requires Contains(e.html, Assembler.BodyClose) && !FaqFires(e.html, low)
    ensures var r := CtaStep(e, low).html;
      Contains(r, Assembler.BodyClose) && !FaqFires(r, low) && !CtaFires(r, low)
  {
    if CtaFires(e.html, low) {
      CtaBlockMarked();
      InsertBlockAdds(e.html, CtaBlock, Assembler.CtaMarker);
      InsertBlockSettled(e.html, CtaBlock, low);
    }
  }

  lemma StripeSettles(e: Edit, low: string)
    requires Contains(e.html, Assembler.BodyClose) && !FaqFires(e.html, low) && !CtaFires(e.html, low)
    ensures var r := StripeStep(e, low).html;
      Contains(r, Assembler.BodyClose) && !FaqFires(r, low) && !CtaFires(r, low) && !StripeFires(r, low)
  {
    if StripeFires(e.html, low) {
      InsertStripeMarks(e.html);
      InsertBlockSettled(e.html, StripeBlock, low);
    }
  }

  /** With a `</body>` in the page, after the three insertion rules none of
      their guards holds any more. */
  lemma InsertionsSettle(e: Edit, low: string)
    requires Contains(e.html, Assembler.BodyClose)
    ensures var r := Insertions(e, low).html;
      Contains(r, Assembler.BodyClose) && !FaqFires(r, low) && !CtaFires(r, low) && !StripeFires(r, low)
  {
    FaqSettles(e, low);
    CtaSettles(FaqStep(e, low), low);
    StripeSettles(CtaStep(FaqStep(e, low), low), low);
  }

  /** Without a `</body>` the insertion rules leave the page as it is, yet each
      rule whose guard holds still reports its insertion. */
  lemma InsertionsWithoutBody(e: Edit, low: string)
    requires !Contains(e.html, Assembler.BodyClose)
    ensures Insertions(e, low).html == e.html
    ensures Insertions(e, low).notes == e.notes
      + (if FaqFires(e.html, low) then [FaqAdded] else [])
      + (if CtaFires(e.html, low) then [CtaAdded] else [])
      + (if StripeFires(e.html, low) then [StripeAdded] else [])
  {
    InsertBlockWithoutBody(e.html, FaqBlock);
    InsertBlockWithoutBody(e.html, CtaBlock);
    InsertBlockWithoutBody(e.html, StripeBlock);
  }

  /** Running the insertion rules again with the same prompt inserts nothing
      more; when the page has a `</body>` it also reports nothing more. */
  lemma InsertionsIdempotent(e: Edit, low: string, notes: seq<Note>)
    ensures Insertions(Edit(Insertions(e, low).html, notes), low).html == Insertions(e, low).html
    ensures Contains(e.html, Assembler.BodyClose) ==>
      Insertions(Edit(Insertions(e, low).html, notes), low) == Edit(Insertions(e, low).html, notes)
  {
    if Contains(e.html, Assembler.BodyClose) {
      InsertionsSettle(e, low);
    } else {
      InsertionsWithoutBody(e, low);
      InsertionsWithoutBody(Edit(e.html, notes), low);
    }
  }

  /** Text without `<` survives the insertion rules. */
  lemma InsertionsKeep(e: Edit, low: string, n: string)
    requires '<' !in n && Contains(e.html, n)
    ensures Contains(Insertions(e, low).html, n)
  {
    var f := FaqStep(e, low);
    if FaqFires(e.html, low) { InsertBlockKeeps(e.html, FaqBlock, n); }
    var c := CtaStep(f, low);
    if CtaFires(f.html, low) { InsertBlockKeeps(f.html, CtaBlock, n); }
    if StripeFires(c.html, low) { InsertBlockKeeps(c.html, StripeBlock, n); }
  }

  /** When the prompt asks for no colour, the whole edit is idempotent on the
      page, and a second run on a page with a `</body>` reports nothing. */
  lemma HeuristicIdempotentWithoutColour(html: string, prompt: string)
    requires ColourValue(Lower(prompt)).None?
    ensures HeuristicEdit(HeuristicEdit(html, prompt).0, prompt).0 == HeuristicEdit(html, prompt).0
    ensures Contains(html, Assembler.BodyClose) ==>
      HeuristicEdit(HeuristicEdit(html, prompt).0, prompt).1 == NothingLine
  {
    InsertionsIdempotent(Edit(html, []), Lower(prompt), []);
  }

  lemma ColourHasNoTag(hex: string)
    requires hex != [] && hex[0] == '#' && All(hex[1..], IsLowerHexDigit)
    ensures '<' !in BrandKey + hex
  {
    assert forall j :: 1 <= j < |hex| ==> hex[j] == hex[1..][j - 1];
    assert '<' !in BrandKey;
  }

  /** The new colour is declared in the edited page whenever the page had a
      brand declaration to substitute. */
  lemma ColourReachesPage(html: string, prompt: string, k: nat)
    requires ColourValue(Lower(prompt)).Some?
    requires k <= |html| && BrandMatch(html[k..]) > 0
    ensures Contains(HeuristicEdit(html, prompt).0, BrandKey + ColourValue(Lower(prompt)).value)
  {
    var low := Lower(prompt);
    var hex := ColourValue(low).value;
    var rep := BrandKey + hex;
    SubBrandReplaces(html, rep, k);
    ColourHasNoTag(hex);
    var e := ColourStep(Edit(html, []), low);
    assert e.html == SubBrand(html, rep);
    InsertionsKeep(e, low, rep);
  }

  /** The colour rule is not idempotent: a declaration with seven digits
      keeps its seventh after the substitution ... */
  lemma ColourRuleKeepsSeventhDigit(d: string, x: char, h: string)
    requires |d| == 6 && All(d, IsHexDigit) && IsHexDigit(x)
    ensures SubBrand(BrandKey + "#" + d + [x], BrandKey + "#" + h) == BrandKey + "#" + h + [x]
  {
    var rep := BrandKey + "#" + h;
    var s1 := BrandKey + "#" + d + [x];
    assert s1 == BrandKey + [] + "#" + d + [x];
    BrandMatchExact([], d, [x]);
    assert s1[15..] == [x];
    SubBrandStep(s1, rep);
    assert BrandMatch([x]) == 0;
    assert SubBrand([x], rep) == [x];
  }

  /** ... and a second run, finding the new colour followed by that digit,
      substitutes again. */
  lemma ColourRuleRerunDiffers(d: string, x: char, h: string)
    requires |d| == 6 && All(d, IsHexDigit) && IsHexDigit(x)
    requires 3 <= |h| <= 5 && All(h, IsLowerHexDigit)
    ensures var once := SubBrand(BrandKey + "#" + d + [x], BrandKey + "#" + h);
      SubBrand(once, BrandKey + "#" + h) != once
  {
    ColourRuleKeepsSeventhDigit(d, x, h);
    var rep := BrandKey + "#" + h;
    RecolouredIsMatch(h, x);
    SubBrandWhole(rep + [x], rep);
  }

  /** The new colour followed by the kept digit is itself a whole match. */
  lemma RecolouredIsMatch(h: string, x: char)
    requires 3 <= |h| <= 5 && All(h, IsLowerHexDigit) && IsHexDigit(x)
    ensures BrandMatch(BrandKey + "#" + h + [x]) == |BrandKey + "#" + h + [x]|
  {
    var hx := h + [x];
    assert forall j :: 0 <= j < |h| ==> hx[j] == h[j];
    assert All(hx, IsHexDigit);
    BrandMatchExact([], hx, []);
    assert BrandKey + [] + "#" + hx + [] == BrandKey + "#" + h + [x];
  }

  /** At a match the scan emits the replacement and resumes after it. */
  lemma SubBrandStep(s: string, rep: string)
    requires BrandMatch(s) > 0
    ensures SubBrand(s, rep) == rep + SubBrand(s[BrandMatch(s)..], rep)
  {
  }

  /** A page that is one match becomes the replacement. */
  lemma SubBrandWhole(s: string, rep: string)
    requires s != [] && BrandMatch(s) == |s|
    ensures SubBrand(s, rep) == rep
  {
    SubBrandStep(s, rep);
    assert s[|s|..] == [];
  }

  /** For a prompt that names no colour, on a page carrying both markers
      the FAQ and CTA rules never fire. */
  lemma MarkedPageKeepsSections(html: string, prompt: string)
    requires Contains(html, Assembler.FaqMarker) && Contains(html, Assembler.CtaMarker)
    requires ColourValue(Lower(prompt)).None?
    ensures FaqAdded !in Rules(html, prompt).notes
    ensures CtaAdded !in Rules(html, prompt).notes
  {
  }

  /** A colour can take a `FAQ` marker apart: its `F` and `A` are
      hexadecimal digits the match swallows. */
  lemma ColourCanRemoveFaq()
    ensures SubBrand(BrandKey + "#FFFAQ", BrandKey + "#abc") == BrandKey + "#abcQ"
  {
    var s := BrandKey + "#FFFAQ";
    assert s == BrandKey + [] + "#" + "FFFA" + "Q";
    BrandMatchExact([], "FFFA", "Q");
    SubBrandStep(s, BrandKey + "#abc");
    assert s[13..] == "Q";
    assert BrandMatch("Q") == 0;
    assert SubBrand("Q", BrandKey + "#abc") == "Q";
  }

  /** The colour step keeps the text the substitution keeps. */
  lemma ColourStepKeeps(html: string, low: string, n: string)
    requires n != [] && '-' !in n && !MatchChar(n[0]) && Contains(html, n)
    ensures Contains(ColourStep(Edit(html, []), low).html, n)
  {
    if ColourValue(low).Some? {
      SubBrandKeeps(html, BrandKey + ColourValue(low).value, n);
    }
  }

  /** With the FAQ heading written `>FAQ` and the CTA marker in the page,
      neither the FAQ rule nor the CTA rule fires, whatever the prompt. */
  lemma HeadedPageKeepsSections(html: string, prompt: string)
    requires Contains(html, ">" + Assembler.FaqMarker) && Contains(html, Assembler.CtaMarker)
    ensures FaqAdded !in Rules(html, prompt).notes
    ensures CtaAdded !in Rules(html, prompt).notes
  {
    var low := Lower(prompt);
    assert !MatchChar('>') && !MatchChar('P');
    ColourStepKeeps(html, low, ">" + Assembler.FaqMarker);
    ColourStepKeeps(html, low, Assembler.CtaMarker);
    var e := ColourStep(Edit(html, []), low);
    ContainsEnd(">", Assembler.FaqMarker);
    ContainsTransitive(e.html, ">" + Assembler.FaqMarker, Assembler.FaqMarker);
    assert FaqAdded !in e.notes && CtaAdded !in e.notes;
  }

  /** An assembled page is such a page: the FAQ and CTA rules never fire on
      it, whatever the prompt. */
  lemma AssembledPageKeepsSections(p: Assembler.Brief, prompt: string)
    ensures FaqAdded !in Rules(Assembler.AssembleHtml(p), prompt).notes
    ensures CtaAdded !in Rules(Assembler.AssembleHtml(p), prompt).notes
  {
    Assembler.FaqHeadingInPage(p);
    Assembler.CtaInPage(p);
    HeadedPageKeepsSections(Assembler.AssembleHtml(p), prompt);
  }

  /** A prompt asking for a FAQ, on a page with a `</body>` and no FAQ yet,
      changes the page, whatever else it asks: the result has a FAQ. */
  lemma FaqRequestChangesPage(html: string, prompt: string)
    requires Contains(html, Assembler.BodyClose) && !Contains(html, Assembler.FaqMarker)
    requires Contains(Lower(prompt), "faq")
    ensures Contains(HeuristicEdit(html, prompt).0, Assembler.FaqMarker)
    ensures HeuristicEdit(html, prompt).0 != html
  {
    var low := Lower(prompt);
    assert !MatchChar('<');
    ColourStepKeeps(html, low, Assembler.BodyClose);
    var e := ColourStep(Edit(html, []), low);
    FaqSettles(e, low);
    var f := FaqStep(e, low);
    assert '<' !in Assembler.FaqMarker;
    var c := CtaStep(f, low);
    if CtaFires(f.html, low) { InsertBlockKeeps(f.html, CtaBlock, Assembler.FaqMarker); }
    if StripeFires(c.html, low) { InsertBlockKeeps(c.html, StripeBlock, Assembler.FaqMarker); }
  }
}
