# Pridano generator: the string core, in Dafny

This project models the string-transformation core of the Pridano site
generator's server, `app.py`, and proves properties of it:

- **`slugify`**: how a project name becomes a folder-safe token. A run
  directory is named `<seconds>_<slug>`.
- **`assemble_html`**: how a brief (`GeneratePayload`) is interpolated into
  the fixed page template.
- **`_heuristic_edit`**: the rule-based editor. It applies four rules in a
  fixed order:
  1. the brand-colour substitution;
  2. the FAQ insertion before `</body>`;
  3. the call-to-action insertion before `</body>`;
  4. the Stripe demo insertion before `</body>`.

  It also builds a log of the rules that fired.
- **The dispatch of `/ai/edit` (`ai_edit`)**: it either takes the page from
  a local model's answer or falls back on the heuristics, and it builds the
  log. The HTTP exchange with the model server is an input: it raised, or it
  came back with an OK or a non-OK status and a body.

Python's string operations are modelled with Python's meaning in `Text`:
- `in` is `Contains`.
- `strip` and `rstrip` are `StripBoth`, `StripLeft` and `StripRight`, over
  the whitespace of `str.isspace`.
- `join` is `Join`.
- `replace` is `ReplaceAll`. It is proved equal to `InsertBefore` for the
  `</body>` pattern.
- `count` is `Count`.
- `lower` is ASCII only (`Lower`).
- `str(int)` is `IntToString`.

The regular expressions are written as character scans:
- `Span` is a greedy bounded repetition.
- `FindColour` is `#([0-9a-f]{3,6})`.
- `BrandMatch` and `SubBrand` are `re.sub(r"--brand:\s*#[0-9a-fA-F]{3,6}", …)`.
- `Tagged` is `<HTML_OUTPUT>(.*)</HTML_OUTPUT>` with `re.S`.

Module layout:
- `Optional.dfy`: the `Option` type.
- `Text.dfy`: the Python string operations.
- `Slug.dfy`: `slugify` and the run folder name.
- `Assembler.dfy`: the brief and the template.
- `Heuristics.dfy`: `_heuristic_edit`, written as one function per rule.
- `ModelClient.dfy`: `ai_edit`. `AiEdit` is a method. It updates the
  handler's `used`, `html_out` and `logs` variables in the handler's order,
  and is proved equal to the case-by-case function `Dispatch`.

## Model

| member | source | states |
|---|---|---|
| Slug.Keep | app.py:59 | deleting the characters outside `a-z0-9-` and space leaves only those characters, and leaves text made of them unchanged |
| Slug.KeepConcat | app.py:59 | the deletion works character by character: the kept characters of `a + b` are those of `a` followed by those of `b`, in order |
| Slug.KeepChar | app.py:59 | a single character is kept exactly when it is in `a-z0-9-` or is a space |
| Slug.KeepAround | app.py:59 | two runs of kept characters, each followed by a deleted character, come out as the two runs joined |
| Slug.CollapseSpaces | app.py:60 | `re.sub(r"\s+", "-", s)`: every maximal whitespace run becomes one `-`, and every other character is copied; pinned down by CollapseCons and CollapseLeadingRun, which together cover every input, and by CollapseLeavesNoSpace, CollapseSlugChars, CollapseRun and CollapseWords |
| Slug.CollapseCons | app.py:60 | any character that is not whitespace is copied, and the substitution goes on after it |
| Slug.CollapseKept | app.py:59-60 | once the other characters are deleted, turning whitespace runs into `-` leaves only `a-z`, `0-9` and `-` |
| Slug.CollapseLeavesNoSpace | app.py:60 | no whitespace character is left after the `\s+` substitution |
| Slug.CollapseSlugChars | app.py:60 | the substitution leaves text made of slug characters unchanged |
| Slug.CollapseSlugPrefix | app.py:60 | a prefix of slug characters goes through the substitution unchanged |
| Slug.CollapseLeadingRun | app.py:60 | a whole leading run of whitespace becomes exactly one `-`, and the rest is substituted in turn |
| Slug.CollapseRun | app.py:60 | a run of whitespace after a prefix of slug characters becomes one `-`, and the rest is substituted in turn |
| Slug.CollapseWords | app.py:60 | words separated by the same whitespace run come out joined by a single `-` |
| Slug.SlugCore | app.py:58-60 | after lowercasing, deleting, collapsing and stripping `-`, only `a-z0-9-` remains, and the result neither starts nor ends with `-` |
| Slug.Slugify | app.py:57-61 | the slug is never empty, uses only `a-z`, `0-9` and `-`, and neither starts nor ends with `-` |
| Slug.SlugifyIsSite | app.py:61 | the slug is `site` exactly when nothing survives the filtering and stripping, or when what survives is `site`; otherwise it is what survives |
| Slug.SlugCoreOfSlug | app.py:57-61 | a string of slug characters without a `-` at either end goes through every step unchanged |
| Slug.SlugifyIdempotent | app.py:57-61 | `slugify(slugify(s)) == slugify(s)` |
| Slug.SlugifyWords | app.py:59-60 | names of slug words separated by spaces give the words joined by one `-` per run, and keep the hyphens inside the words |
| Slug.SlugifyDoubleHyphen | app.py:59-60 | `a--b` gives `a--b` |
| Slug.SlugifySpacedHyphen | app.py:59-60 | `a - b` gives `a---b` |
| Slug.SlugifyPunctuated | app.py:57-61 | `Hello, World!` gives `hello-world`: capitals are lowered, punctuation is deleted, the space becomes `-` |
| Slug.RunFolder | app.py:88 | the folder name is the time stamp, `_`, then the slug of the project name: before that `_`, the digits (after a minus sign when negative) read back as the number of seconds, with no leading zero; the name uses only slug characters and `_` |
| Text.NatToStringRoundTrip | app.py:88 | the decimal digits written for a number read back as that number |
| Text.IntToString | app.py:88 | `str(i)` is a minus sign exactly for negative numbers, followed by decimal digits that read back as the absolute value of `i`, with no leading zero |
| Text.StripBoth | app.py:60 | stripping leaves no dropped character at either end; it gives the empty string exactly when every character is dropped |
| Text.StripBothSlice | app.py:60 | stripping keeps a middle slice, cutting off only dropped characters |
| Text.StripPadded | app.py:64 | padding made only of whitespace is removed, and nothing else is |
| Text.ReplaceIsInsertBefore | app.py:109 | replacing `</body>` by a block followed by `</body>` inserts the block before every occurrence, and changes nothing else |
| Text.InsertBeforeInserts | app.py:109 | wherever the pattern occurs, the inserted block now stands right before it |
| Text.InsertBeforeKeeps | app.py:109 | text that holds no first character of the pattern survives the insertion |
| Text.ReplaceAllAbsent | app.py:109 | without an occurrence of the pattern, `replace` changes nothing |
| Text.JoinEmpty | app.py:82 | with a non-empty separator, a join is empty exactly when there are no items or the only item is empty |
| Text.CountRepeat | app.py:66-67 | `n` copies of a text contain it exactly `n` times, counted without overlap |
| Assembler.Brand | app.py:64 | the first colour of the brief, stripped, or `#12C2E9` when there is none; pinned down by BrandDefault, BrandTrimmed and DefaultBriefPage |
| Assembler.HeroLabel | app.py:65 | `Réserver` when `Réservation` is a feature, `Nous contacter` otherwise; see HeroButton |
| Assembler.AssembleHtml | app.py:63-84 | the page: the head with the brand rule and the title, the five sections joined in order, then the information line; pinned down by BrandAndTitle, HeroButton, SectionInPage, SixServiceCards, InfoLine and AssembledMarkers |
| Assembler.BrandDefault | app.py:64 | with no colours, the brand is `#12C2E9` |
| Assembler.DefaultBriefPage | app.py:41-49 | the default brief lists the template's default colour, so its brand is `#12C2E9`; its hero button reads `Nous contacter` |
| Assembler.BrandTrimmed | app.py:64 | otherwise the brand is the first colour without its surrounding whitespace |
| Assembler.BrandAndTitle | app.py:74-78 | the page contains `:root{--brand:` and the brand colour, so it contains `--brand:` immediately followed by the brand; it contains `<title>` + project name + `</title>` |
| Assembler.HeroButton | app.py:65 | the hero's button reads `Réserver` when `Réservation` is a feature, and `Nous contacter` otherwise |
| Assembler.SixServiceCards | app.py:66-68 | the page holds the service grid, whose row counts exactly six cards |
| Assembler.SectionInPage | app.py:73-81 | each of the five sections (hero, grid, FAQ, call to action, footer) is in the page |
| Assembler.DashFallback | app.py:82 | a list field shows `—` when its items join to nothing, and the join otherwise; it reads `—` exactly when it has no items, its only item is empty, or its only item is `—` |
| Assembler.InfoLine | app.py:82 | the information line shows the pages and the modules with the `—` fallback, and the stack joined with no fallback |
| Assembler.AssembledMarkers | app.py:69-83 | the page contains `FAQ`, `Prêt à démarrer` and `</body>` |
| Assembler.FaqHeadingInPage | app.py:69 | the page contains `>FAQ`: the FAQ heading's tag closes right before the marker |
| Heuristics.FirstHexFrom | app.py:101 | returns the leftmost position at or after `i` where `#` and three hexadecimal digits start, or none when there is no such position |
| Heuristics.FindColour | app.py:101-104 | when there is a match, the value is `#` followed by 3 to 6 lowercase hexadecimal digits; there is none exactly when no position matches |
| Heuristics.FindColourLeftmost | app.py:101-104 | the value comes from the leftmost match, and takes every following digit up to six (greedy) |
| Heuristics.HexAtLower | app.py:98-101 | the lowercased prompt has a match at `k` exactly when the prompt has `#` there followed by three hexadecimal digits of either case |
| Heuristics.ColourValue | app.py:101-104 | the colour the rule applies: none unless the prompt says `couleur` or `color`, and then the leftmost `#` with 3 to 6 hexadecimal digits; see FindColour, FindColourLeftmost and HexAtLower |
| Heuristics.BrandMatch | app.py:105 | the length of the `--brand:\s*#[0-9a-fA-F]{3,6}` match at the start of the text, or 0; pinned down by BrandMatchShape, BrandMatchFound and BrandMatchExact |
| Heuristics.SubBrand | app.py:105 | `re.sub` of that pattern, left to right and without overlap; pinned down by SubBrandSkips, SubBrandAt, SubBrandNoMatch, SubBrandKeeps and SubBrandReplaces |
| Heuristics.ColourStep | app.py:102-106 | with a colour, the substitution by `--brand:` + the colour and a colour note; without one, nothing; see ColourReachesPage, ColourStepKeeps and RulesNotesValid |
| Heuristics.HashMatchShape | app.py:105 | a `#[0-9a-fA-F]{3,6}` match is `#` followed by the longest run of hexadecimal digits, up to six |
| Heuristics.SpacedMatchShape | app.py:105 | a `\s*#…` match is the whole whitespace run followed by a `#…` match |
| Heuristics.BrandMatchShape | app.py:105 | a match is `--brand:`, a whole run of whitespace, `#` and its digits |
| Heuristics.BrandMatchFound | app.py:105 | anything that starts with `--brand:`, whitespace, `#` and three hexadecimal digits is a match |
| Heuristics.BrandMatchExact | app.py:105 | the match takes the whole whitespace run and every following digit, up to six |
| Heuristics.SubBrandNoMatch | app.py:105 | with no match anywhere, the substitution leaves the page as it is |
| Heuristics.SubBrandKeyless | app.py:105 | a page that never mentions `--brand:` is left as it is |
| Heuristics.SubBrandReplaces | app.py:105 | when a match occurs anywhere, the replacement appears in the result |
| Heuristics.SubBrandSkips | app.py:105 | where no match starts before position `k`, the substitution copies the page up to `k` unchanged |
| Heuristics.SubBrandAt | app.py:105 | with no match before `k` and one at `k`, the result is the page up to `k`, the replacement, then the substitution of what follows the match |
| Heuristics.MatchCovers | app.py:105 | every character a match covers is one of `--brand:`, whitespace, `#` or a hexadecimal digit |
| Heuristics.SubBrandKeeps | app.py:105 | text without `-` whose first character no match can cover survives the substitution |
| Heuristics.ColourReachesPage | app.py:102-105 | when the prompt asks for a colour and the page has a brand declaration, `--brand:` + the new colour appears in the edited page |
| Heuristics.ColourRuleKeepsSeventhDigit | app.py:105 | with seven digits after `--brand:#`, the substitution keeps the seventh digit |
| Heuristics.ColourRuleRerunDiffers | app.py:105 | so a second run of the colour rule with a colour of 3 to 5 digits changes the page again: the rule is not idempotent |
| Heuristics.NothingDetected | app.py:119-121 | when no rule fires, the page is unchanged and the log is the single "nothing detected" line; that line is the log exactly when no rule fired, and otherwise the log is the rules' lines joined by `\n` |
| Heuristics.NothingLineExactly | app.py:119-121 | a log is the "nothing detected" line exactly when it has no notes |
| Heuristics.RulesLogInOrder | app.py:100-118 | the log lines come in rule order (colour, FAQ, CTA, Stripe), with at most one line per rule |
| Heuristics.RulesNotesValid | app.py:104-106 | every colour the log reports is `#` and at least three lowercase hexadecimal digits |
| Heuristics.LogTrimmed | app.py:106-121 | a log built from valid notes neither starts nor ends with whitespace |
| Heuristics.LogTextTrimmed | app.py:96-121 | the heuristics' log neither starts nor ends with whitespace |
| Heuristics.InsertBlock | app.py:109 | `html.replace("</body>", block + "</body>")`; see InsertBlockIsInsertBefore, InsertBlockAdds and InsertBlockKeeps |
| Heuristics.FaqStep | app.py:108-110 | when the prompt asks for a FAQ and the page has no `FAQ`, the FAQ block is inserted and noted; see FaqSettles, FaqRequestChangesPage |
| Heuristics.CtaStep | app.py:112-114 | the same for `cta` and the `Prêt à démarrer` marker; see CtaSettles |
| Heuristics.StripeStep | app.py:116-118 | the same for `stripe`, looked for in the lowercased page; see StripeSettles |
| Heuristics.Rules | app.py:100-118 | the colour rule, then FAQ, CTA and Stripe, in source order, from an empty log; see RulesLogInOrder, InsertionsIdempotent and AssembledPageKeepsSections |
| Heuristics.LogText | app.py:119-121 | the notes' lines joined by `\n`, or the "nothing detected" line when there is none; see NothingLineExactly, LogTrimmed |
| Heuristics.HeuristicEdit | app.py:96-121 | `_heuristic_edit`: the page after the rules and their log; see NothingDetected, LogTextTrimmed, HeuristicIdempotentWithoutColour and FaqRequestChangesPage |
| Heuristics.InsertBlockIsInsertBefore | app.py:108-118 | each insertion places its block before every `</body>` and changes nothing else |
| Heuristics.InsertBlockWithoutBody | app.py:108-118 | a page without `</body>` is left as it is |
| Heuristics.InsertBlockAdds | app.py:108-118 | on a page with `</body>`, everything in the block reaches the page |
| Heuristics.InsertBlockKeeps | app.py:108-118 | text without `<` in the page is still there after an insertion |
| Heuristics.FaqBlockMarked | app.py:108-109 | the FAQ block contains the `FAQ` marker its guard looks for |
| Heuristics.CtaBlockMarked | app.py:112-113 | the CTA block contains the `Prêt à démarrer` marker its guard looks for |
| Heuristics.StripeBlockMarked | app.py:116-117 | the lowercased Stripe block contains `stripe` |
| Heuristics.InsertBlockSettled | app.py:108-118 | a guard that is off stays off after an insertion into a page with `</body>` |
| Heuristics.InsertionsSettle | app.py:108-118 | on a page with `</body>`, none of the three insertion guards holds after the insertion rules |
| Heuristics.InsertionsWithoutBody | app.py:108-118 | without `</body>` the page is unchanged, yet each rule whose guard holds still reports its insertion |
| Heuristics.InsertionsIdempotent | app.py:108-118 | running the insertion rules again with the same prompt inserts nothing more; on a page with `</body>` it reports nothing more either |
| Heuristics.InsertionsKeep | app.py:108-118 | text without `<` survives the insertion rules |
| Heuristics.HeuristicIdempotentWithoutColour | app.py:96-121 | when the prompt asks for no colour, editing twice gives the same page as editing once, and the second log is "nothing detected" when the page has `</body>` |
| Heuristics.MarkedPageKeepsSections | app.py:108-113 | for a prompt that names no colour, on a page that has both markers, the FAQ and CTA rules never fire |
| Heuristics.ColourCanRemoveFaq | app.py:105 | why that needs a prompt without colour: `--brand:#FFFAQ` with a new colour `#abc` becomes `--brand:#abcQ`, so the `FAQ` marker is gone |
| Heuristics.ColourStepKeeps | app.py:102-105 | the colour rule keeps any text that the substitution keeps |
| Heuristics.HeadedPageKeepsSections | app.py:100-113 | whatever the prompt, on a page that has `>FAQ` and `Prêt à démarrer`, the FAQ and CTA rules never fire |
| Heuristics.AssembledPageKeepsSections | app.py:100-113 | whatever the prompt, on an assembled page the FAQ and CTA rules never fire |
| Heuristics.FaqRequestChangesPage | app.py:100-110 | whatever else the prompt asks, a FAQ request on a page with `</body>` and no FAQ changes the page, and the result has a FAQ |
| ModelClient.Configured | app.py:129 | both the server address and the model are present and non-empty; see DefaultsUseHeuristics, FallbackCases |
| ModelClient.Endpoint | app.py:130 | the address without its trailing slashes, then `/api/generate`; pinned down by EndpointOf and EndpointIgnoresTrailingSlash |
| ModelClient.ModelPrompt | app.py:131-137 | the instructions, the request and the page between `<<<HTML` and `HTML>>>`; see CallCarriesRequest |
| ModelClient.BuildCall | app.py:138 | the JSON body posted: model, prompt, `stream` off, to the endpoint; see CallCarriesRequest |
| ModelClient.EndpointOf | app.py:130 | an address that does not end with `/`, followed by any number of slashes, gives that address followed by `/api/generate` |
| ModelClient.EndpointIgnoresTrailingSlash | app.py:130 | a trailing slash does not change the endpoint |
| ModelClient.CallCarriesRequest | app.py:131-138 | the prompt sent starts with the instructions and contains the request and the delimited page; the model named is sent, and streaming is off |
| ModelClient.Tagged | app.py:142 | the extracted group is no longer than the answer |
| ModelClient.TaggedMatch | app.py:142 | a match is an opening tag, the group and a closing tag, with no earlier opening tag and no later closing tag (greedy `.*` under `re.S`) |
| ModelClient.TaggedFound | app.py:142 | any opening tag followed later by a closing tag gives a match |
| ModelClient.Take | app.py:150 | `text[:160]` is a prefix of at most 160 characters, and is the whole text when the text is shorter |
| ModelClient.Answer | app.py:142-148 | the tagged group stripped, or else the stripped answer, or the original page; see TaggedAnswer, UntaggedAnswer and AnswerTrimmed |
| ModelClient.Fallback | app.py:155-157 | the heuristics' page, and the stripped reason, newline and heuristics' log; see FallbackLog |
| ModelClient.Dispatch | app.py:126-157 | the handler's result for each outcome of the call; see FallbackCases, TaggedAnswer, UntaggedAnswer and UnreadableBodySkipsHeuristics |
| ModelClient.AiEdit | app.py:123-158 | the handler's page and log are those `Dispatch` gives, case by case; the request is posted exactly when a URL and a model are configured |
| ModelClient.FallbackLog | app.py:155-157 | in a fallback, the page is the heuristics' page and the stripped log is the reason, a newline and the heuristics' log |
| ModelClient.FallbackCases | app.py:126-157 | when not configured, when the call raises, or when the status is not OK, the page is the heuristics' page, and the log gives the matching reason before the heuristics' log |
| ModelClient.DefaultsUseHeuristics | app.py:129 | a request left at its defaults names no model, so the heuristics answer it |
| ModelClient.TaggedAnswer | app.py:139-145 | with a tagged answer, the page is the stripped group, the log says the answer was used, and the heuristics do not run |
| ModelClient.UntaggedAnswer | app.py:139-148 | with an untagged answer, the page is the stripped answer, or the original page when that is empty; a missing `response` field gives the original page |
| ModelClient.AnswerTrimmed | app.py:142-148 | a page taken from the answer is the original page, empty, or starts and ends with a character that is not whitespace |
| ModelClient.UnreadableBodySkipsHeuristics | app.py:139-155 | as written: an unreadable body after an OK status gives back the original page, with a log saying the heuristics were applied, on an input where they would have changed the page |
| ModelClient.AiEditIntended | app.py:123-158 | the handler with `used` set only once the answer is read: its page and log are those `DispatchIntended` gives |
| ModelClient.IntendedAgreesElsewhere | app.py:126-157 | the intended dispatch agrees with the one as written in every case except an unreadable body after an OK status |
| ModelClient.IntendedUnreadableFallsBack | app.py:153-157 | the intended dispatch falls back on the heuristics for an unreadable body, with the unavailability reason before their log |
| ModelClient.IntendedHeuristicsUnlessAnswered | app.py:126-157 | in the intended dispatch, the page is the heuristics' page whenever the model's answer is not used |

## Left out

- The FastAPI application, CORS, and the static mounts (app.py:9-24): framework plumbing.
- `root_index` (app.py:27-39), a check for files on disk.
- The directory creation and file write of `generate_site` (app.py:89-94). `time.time()` is a parameter of `RunFolder`. The `n` query parameter of `generate_site` (app.py:87) is ignored, and the constant score `1.0` of the response is not modelled.
- The `requests.post` exchange, its 60-second timeout, and `resp.json()` (app.py:138-141) are network I/O and JSON decoding. They are an `Outcome` input:
  - `ok` stands for `resp.ok`, a status below 400. The model does not tie `ok` to `status`, so it also admits outcomes `requests` cannot produce, such as `ok` with status 500. Every lemma holds for all outcomes, so nothing is lost;
  - a body that is not a JSON object, or whose decoding raises, is `Unreadable`;
  - a `response` field with a non-text value makes `re.search` (app.py:142) raise after `used = "ollama"` (app.py:140). The `except` (app.py:153-154) catches that, exactly as for an undecodable body, so it is `Unreadable` as well.
- `Lower` is ASCII only, unlike Python's full `str.lower()`. The prompt's needles are ASCII, and so is the colour class. But two characters lowercase to an ASCII letter in Python:
  - `İ` (U+0130) lowercases to `i` followed by a combining dot;
  - the Kelvin sign (U+212A) lowercases to `k`.

  So `Slug.Slugify` keeps such a character's ASCII letter in Python, and the model deletes it.
- The brief's `dark_mode` and `model` fields are carried by `Brief`, but the template does not use them (app.py:48-49), and nothing is proved about them.
- The browser client (`client/app.js`) is not part of this model.
- Heuristics.HeuristicIdempotentWithoutColour: idempotence is proved only for prompts that ask for no colour. In the code, the colour rule is not idempotent: `ColourRuleKeepsSeventhDigit` and `ColourRuleRerunDiffers` show a second run changing the page again.
- Heuristics.ColourReachesPage: states that the new declaration is in the page. It does not spell out the whole page after the substitution. That page is given step by step by `SubBrandAt`, which copies up to the leftmost match and emits the replacement there, and by `SubBrandNoMatch` once no match is left.

## Findings

| source | as written | input that shows it | evidently intended | confidence | as-written member | corrected member |
|---|---|---|---|---|---|---|
| app.py:139-155 | `used = "ollama"` is set before `resp.json()`. When reading the body raises, the `except` writes a log saying the heuristics were applied, but `used` is already `"ollama"`, so they are skipped and the original page is returned | OK status, body that is not JSON, a prompt `faq`, a page with `</body>` and no `FAQ`: the page comes back without a FAQ, and the log says the heuristics were applied | the heuristics run whenever the model's answer is not used, as the log says | not executed | ModelClient.UnreadableBodySkipsHeuristics (with ModelClient.Dispatch, ModelClient.AiEdit) | ModelClient.AiEditIntended, ModelClient.IntendedUnreadableFallsBack, ModelClient.IntendedHeuristicsUnlessAnswered |
