/** The brief of a site (`GeneratePayload`) and the fixed page template it
    is interpolated into (`assemble_html`). */
module Assembler {
  import opened Text
  import opened Optional

  /** The brief sent to `/generate`. `darkMode` and `model` are accepted but
      the template does not use them. */
  datatype Brief = Brief(
    projectName: string,
    tone: string,
    brandColors: seq<string>,
    pages: seq<string>,
    features: seq<string>,
    tech: seq<string>,
    darkMode: bool,
    model: Option<string>)

  const DefaultBrand := "#12C2E9"

  /** The brief whose every field takes its default value. */
  const DefaultBrief := Brief("Mon Site", "moderne", [DefaultBrand],
    ["Accueil", "Services", "Contact"], [], ["HTML+Tailwind"], false, None)

  /** The brand colour: the first colour of the brief, trimmed, or the
      default colour when the brief lists none. */
  function Brand(p: Brief): string
  {
    Strip(if |p.brandColors| > 0 then p.brandColors[0] else DefaultBrand)
  }

  /** The label of the hero's call-to-action button. */
  function HeroLabel(features: seq<string>): string
  {
    if "Réservation" in features then "Réserver" else "Nous contacter"
  }

  // ---------------------------------------------------------------------
  // The five sections of the page body
  // ---------------------------------------------------------------------

  const HeroOpen := "<header class='gradient text-white'><div class='max-w-5xl mx-auto px-6 py-12'><h1 class='text-4xl font-bold'>"
  const HeroTone := "</h1><p class='mt-2 max-w-2xl text-white/90'>"
  const HeroActions := "</p><div class='mt-6 flex gap-3'>"
  const ButtonOpen := "<a class='px-5 py-3 bg-white text-slate-900 rounded-xl font-semibold'>"
  const HeroClose := "<a class='px-5 py-3 border border-white/50 rounded-xl'>En savoir plus</a></div></div></header>"

  function Button(caption: string): string
  {
    ButtonOpen + caption + "</a>"
  }

  function Hero(p: Brief): string
  {
    HeroOpen + p.projectName + HeroTone + p.tone + HeroActions + Button(HeroLabel(p.features)) + HeroClose
  }

  const GridOpen := "<section class='max-w-5xl mx-auto px-6 py-12'><h2 class='text-xl font-semibold mb-4'>Nos services</h2><div class='grid grid-cols-1 sm:grid-cols-2 lg:grid-cols-3 gap-6'>"
  const ServiceCard := "<div class='p-5 bg-white rounded-2xl shadow'><div class='h-32 bg-slate-100 rounded-lg mb-3'></div><div class='h-4 bg-slate-200 rounded w-4/5 mb-2'></div><div class='h-4 bg-slate-200 rounded w-2/3'></div></div>"
  const GridClose := "</div></section>"

  /** The services grid holds `ServiceCardCount` placeholder cards. */
  const ServiceCardCount := 6

  function Grid(): string
  {
    GridOpen + Repeat(ServiceCard, ServiceCardCount) + GridClose
  }

  /** The heading the FAQ section is recognised by. */
  const FaqMarker := "FAQ"
  const FaqOpen := FaqHeading + ">"
  const FaqHeading := "<section class='max-w-5xl mx-auto px-6 pb-12'><h2 class='text-xl font-semibold mb-4'"
  const FaqQuestions := "</h2><div class='space-y-3'><details class='bg-white rounded-xl p-4 shadow'><summary class='font-medium'>Question 1</summary><p class='text-slate-600 mt-2'>Réponse.</p></details><details class='bg-white rounded-xl p-4 shadow'><summary class='font-medium'>Question 2</summary><p class='text-slate-600 mt-2'>Réponse.</p></details></div></section>"

  function Faq(): string
  {
    FaqOpen + FaqMarker + FaqQuestions
  }

  /** The heading the call-to-action section is recognised by; the same
      section is what the editor inserts. */
  const CtaMarker := "Prêt à démarrer"
  const CtaOpen := "<section class='max-w-5xl mx-auto px-6 py-12 text-center'><h2 class='text-2xl font-semibold'>"
  const CtaClose := " ?</h2><a class='inline-block mt-4 px-6 py-3 bg-slate-900 text-white rounded-xl'>Nous contacter</a></section>"

  function Cta(): string
  {
    CtaOpen + CtaMarker + CtaClose
  }

  const Footer := "<footer class='border-t'><div class='max-w-5xl mx-auto px-6 py-8 text-sm text-slate-500'>© Votre marque</div></footer>"

  function Sections(p: Brief): seq<string>
  {
    [Hero(p), Grid(), Faq(), Cta(), Footer]
  }

  // ---------------------------------------------------------------------
  // The document
  // ---------------------------------------------------------------------

  const DocHead := "<!DOCTYPE html><html lang='fr'><head>\n      <meta charset='utf-8'><meta name='viewport' content='width=device-width, initial-scale=1'>\n      <link href='https://cdn.jsdelivr.net/npm/tailwindcss@3.4.12/dist/tailwind.min.css' rel='stylesheet'>\n      <style>"
  const GradientRule := " .gradient{background:linear-gradient(135deg,var(--brand) 0%,#7DE3F6 100%)}</style>\n      "
  const BodyOpen := "\n    </head>\n    <body class='bg-slate-50 text-slate-900'>\n      "
  const InfoOpen := "\n      <section class='max-w-5xl mx-auto px-6 py-12'><h2 class='text-xl font-semibold mb-2'>Infos</h2>"
  const BodyClose := "</body>"
  const DocClose := "\n    " + BodyClose + "</html>"

  /** `", ".join(xs) or "—"`. */
  function OrDash(s: string): string
  {
    if s == "" then "—" else s
  }

  function BrandDeclaration(brand: string): string
  {
    "--brand:" + brand
  }

  /** The `:root` rule declaring the brand colour. */
  function RootRule(brand: string): string
  {
    ":root{" + BrandDeclaration(brand) + "}"
  }

  function TitleElement(name: string): string
  {
    "<title>" + name + "</title>"
  }

  /** The paragraph of the closing information section. */
  function InfoParagraph(p: Brief): string
  {
    "<p class='text-slate-600'>Pages : " + OrDash(Join(", ", p.pages)) + " • Modules : "
      + OrDash(Join(", ", p.features)) + " • Stack : " + Join(", ", p.tech) + "</p>"
  }

  /** `assemble_html(p)`. */
  function AssembleHtml(p: Brief): string
  {
    DocHead + RootRule(Brand(p)) + GradientRule + TitleElement(p.projectName) + BodyOpen
      + Join("", Sections(p)) + InfoOpen + InfoParagraph(p) + "</section>" + DocClose
  }

  // ---------------------------------------------------------------------
  // What the assembled page contains
  // ---------------------------------------------------------------------

  /** With no colour listed, the brand colour is `#12C2E9`. */
  lemma BrandDefault(p: Brief)
    requires |p.brandColors| == 0
    ensures Brand(p) == "#12C2E9"
  {
    StripBothUnchanged(DefaultBrand, IsSpace);
  }

  /** The default brief lists the template's own default colour, so its
      page is painted in `#12C2E9` too; its hero button reads
      "Nous contacter", since it lists no booking feature. */
  lemma DefaultBriefPage()
    ensures Brand(DefaultBrief) == "#12C2E9"
    ensures HeroLabel(DefaultBrief.features) == "Nous contacter"
  {
    assert DefaultBrief.brandColors == [DefaultBrand];
    BrandDefaultColour(DefaultBrief);
  }

  /** A brief whose first colour is the default one is painted in it. */
  lemma BrandDefaultColour(p: Brief)
    requires |p.brandColors| > 0 && p.brandColors[0] == DefaultBrand
    ensures Brand(p) == "#12C2E9"
  {
    StripBothUnchanged(DefaultBrand, IsSpace);
  }

  /** Otherwise it is the first listed colour with its surrounding
      whitespace removed. */
  lemma BrandTrimmed(p: Brief, a: string, c: string, b: string)
    requires |p.brandColors| > 0 && p.brandColors[0] == a + c + b
    requires All(a, IsSpace) && All(b, IsSpace)
    requires c != [] && !IsSpace(c[0]) && !IsSpace(c[|c| - 1])
    ensures Brand(p) == c
  {
    StripPadded(a, c, b, IsSpace);
  }

  /** The page, cut just before the body's sections. */
  function Head(p: Brief): string
  {
    DocHead + RootRule(Brand(p)) + GradientRule + TitleElement(p.projectName) + BodyOpen
  }

  /** What holds in a prefix of the page holds in the page. */
  lemma InHead(p: Brief, n: string)
    requires Contains(Head(p), n)
    ensures Contains(AssembleHtml(p), n)
  {
    var h := Head(p);
    var s := Join("", Sections(p));
    ContainsLeft(h, s, n);
    ContainsLeft(h + s, InfoOpen, n);
    ContainsLeft(h + s + InfoOpen, InfoParagraph(p), n);
    ContainsLeft(h + s + InfoOpen + InfoParagraph(p), "</section>", n);
    ContainsLeft(h + s + InfoOpen + InfoParagraph(p) + "</section>", DocClose, n);
  }

  lemma InBody(p: Brief, n: string)
    requires Contains(Join("", Sections(p)), n)
    ensures Contains(AssembleHtml(p), n)
  {
    var h := Head(p);
    var s := Join("", Sections(p));
    ContainsRight(h, s, n);
    ContainsLeft(h + s, InfoOpen, n);
    ContainsLeft(h + s + InfoOpen, InfoParagraph(p), n);
    ContainsLeft(h + s + InfoOpen + InfoParagraph(p), "</section>", n);
    ContainsLeft(h + s + InfoOpen + InfoParagraph(p) + "</section>", DocClose, n);
  }

  /** The style block declares `--brand:` immediately followed by the brand
      colour, and the title is the project name. */
  lemma BrandAndTitle(p: Brief)
    ensures Contains(AssembleHtml(p), RootRule(Brand(p)))
    ensures Contains(AssembleHtml(p), "--brand:" + Brand(p))
    ensures Contains(AssembleHtml(p), "<title>" + p.projectName + "</title>")
  {
    var r := RootRule(Brand(p));
    ContainsInfix(":root{", BrandDeclaration(Brand(p)), "}");
    var t := TitleElement(p.projectName);
    ContainsEnd(DocHead, r);
    ContainsLeft(DocHead + r, GradientRule, r);
    ContainsLeft(DocHead + r + GradientRule, t, r);
    ContainsLeft(DocHead + r + GradientRule + t, BodyOpen, r);
    InHead(p, r);
    ContainsTransitive(AssembleHtml(p), r, BrandDeclaration(Brand(p)));
    ContainsEnd(DocHead + r + GradientRule, t);
    ContainsLeft(DocHead + r + GradientRule + t, BodyOpen, t);
    InHead(p, t);
  }

  /** Each of the five sections (hero, services grid, FAQ, call to action,
      footer) is in the page. */
  lemma SectionInPage(p: Brief, i: nat)
    requires i < |Sections(p)|
    ensures Contains(AssembleHtml(p), Sections(p)[i])
  {
    JoinContains("", Sections(p), i);
    InBody(p, Sections(p)[i]);
  }

  /** What a section contains, the page contains. */
  lemma InSection(p: Brief, i: nat, n: string)
    requires i < |Sections(p)| && Contains(Sections(p)[i], n)
    ensures Contains(AssembleHtml(p), n)
  {
    SectionInPage(p, i);
    ContainsTransitive(AssembleHtml(p), Sections(p)[i], n);
  }

  /** The hero holds the button whose caption `HeroLabel` chooses. */
  lemma HeroHasButton(p: Brief)
    ensures Contains(Hero(p), Button(HeroLabel(p.features)))
  {
    var b := Button(HeroLabel(p.features));
    var before := HeroOpen + p.projectName + HeroTone + p.tone + HeroActions;
    ContainsEnd(before, b);
    ContainsLeft(before + b, HeroClose, b);
  }

  /** The hero's button reads `Réserver` when `Réservation` is one of the
      features, and `Nous contacter` otherwise. */
  lemma HeroButton(p: Brief)
    ensures "Réservation" in p.features ==> Contains(AssembleHtml(p), Button("Réserver"))
    ensures "Réservation" !in p.features ==> Contains(AssembleHtml(p), Button("Nous contacter"))
  {
    HeroHasButton(p);
    assert Sections(p)[0] == Hero(p);
    InSection(p, 0, Button(HeroLabel(p.features)));
  }

  /** The page holds the services grid, whose row holds exactly six cards. */
  lemma SixServiceCards(p: Brief)
    ensures Contains(AssembleHtml(p), GridOpen + Repeat(ServiceCard, 6) + GridClose)
    ensures Count(Repeat(ServiceCard, 6), ServiceCard) == 6
  {
    CountRepeat(ServiceCard, ServiceCardCount);
    assert Sections(p)[1] == Grid();
    SectionInPage(p, 1);
  }

  /** A list field of the information line shows `—` when its items join to
      nothing and the joined items otherwise; so it reads `—` exactly when
      there are no items, the only item is empty, or the only item is `—`. */
  lemma {:induction false} DashFallback(xs: seq<string>)
    ensures Join(", ", xs) == "" ==> OrDash(Join(", ", xs)) == "—"
    ensures Join(", ", xs) != "" ==> OrDash(Join(", ", xs)) == Join(", ", xs)
    ensures OrDash(Join(", ", xs)) == "—" <==> xs == [] || xs == [""] || xs == ["—"]
  {
    JoinEmpty(", ", xs);
    if |xs| >= 2 {
      assert |Join(", ", xs)| >= 2;
    }
  }

  /** The information line lists the pages and the modules, each with the
      `—` fallback, and the stack as it is joined, with no fallback. */
  lemma InfoLine(p: Brief)
    ensures Contains(AssembleHtml(p), "<p class='text-slate-600'>Pages : " + OrDash(Join(", ", p.pages))
      + " • Modules : " + OrDash(Join(", ", p.features)) + " • Stack : " + Join(", ", p.tech) + "</p>")
  {
    var h := Head(p) + Join("", Sections(p)) + InfoOpen;
    var q := InfoParagraph(p);
    ContainsEnd(h, q);
    ContainsLeft(h + q, "</section>", q);
    ContainsLeft(h + q + "</section>", DocClose, q);
  }

  /** The page carries the markers the editor's guards look for, and a
      closing body tag for its insertions. */
  lemma AssembledMarkers(p: Brief)
    ensures Contains(AssembleHtml(p), FaqMarker)
    ensures Contains(AssembleHtml(p), CtaMarker)
    ensures Contains(AssembleHtml(p), BodyClose)
  {
    FaqInPage(p);
    CtaInPage(p);
    BodyCloseInPage(p);
  }

  lemma FaqInPage(p: Brief)
    ensures Contains(AssembleHtml(p), FaqMarker)
  {
    ContainsInfix(FaqOpen, FaqMarker, FaqQuestions);
    assert Sections(p)[2] == Faq();
    InSection(p, 2, FaqMarker);
  }

  /** The FAQ heading closes its tag right before the marker. */
  lemma FaqHeadingInPage(p: Brief)
    ensures Contains(AssembleHtml(p), ">" + FaqMarker)
  {
    ContainsJoint(FaqHeading, ">", FaqMarker, FaqQuestions);
    assert Sections(p)[2] == Faq();
    InSection(p, 2, ">" + FaqMarker);
  }

  lemma CtaInPage(p: Brief)
    ensures Contains(AssembleHtml(p), CtaMarker)
  {
    ContainsInfix(CtaOpen, CtaMarker, CtaClose);
    assert Sections(p)[3] == Cta();
    InSection(p, 3, CtaMarker);
  }

  lemma BodyCloseInPage(p: Brief)
    ensures Contains(AssembleHtml(p), BodyClose)
  {
    ContainsInfix("\n    ", BodyClose, "</html>");
    ContainsRight(Head(p) + Join("", Sections(p)) + InfoOpen + InfoParagraph(p) + "</section>", DocClose, BodyClose);
  }
}
