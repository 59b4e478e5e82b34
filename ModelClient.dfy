/** The `/ai/edit` dispatch (`ai_edit`): ask a local language model for the
    edited page when one is configured, and fall back on the rule-based
    editor otherwise. The HTTP exchange is not performed here: what the
    server answered is an input. */
module ModelClient {
  import opened Text
  import opened Optional
  import Heuristics
  import Assembler

  /** An edit request (`AIEDitRequest`). */
  datatype Request = Request(html: string, prompt: string, model: Option<string>, ollamaUrl: Option<string>)

  const DefaultOllamaUrl := "http://localhost:11434"

  /** A request that leaves `model` and `ollama_url` at their defaults. */
  function NewRequest(html: string, prompt: string): Request
  {
    Request(html, prompt, None, Some(DefaultOllamaUrl))
  }

  /** `req.ollama_url and req.model`: both present and non-empty. */
  predicate Configured(req: Request)
  {
    req.ollamaUrl.Some? && req.ollamaUrl.value != "" && req.model.Some? && req.model.value != ""
  }

  // ---------------------------------------------------------------------
  // The call to the model server
  // ---------------------------------------------------------------------

  /** The JSON body posted to the server. */
  datatype Call = Call(url: string, model: string, prompt: string, stream: bool)

  /** `url.rstrip("/") + "/api/generate"`. */
  function Endpoint(base: string): string
  {
    StripRight(base, IsSlash) + "/api/generate"
  }

  const SystemPrompt := "Tu es un assistant front-end. Transforme le HTML fourni. Retourne uniquement le HTML final entre balises <HTML_OUTPUT>...</HTML_OUTPUT>."

  /** The page as the model receives it, between `<<<HTML` and `HTML>>>`. */
  function Quoted(html: string): string
  {
    "<<<HTML\n" + html + "\nHTML>>>"
  }

  function ModelPrompt(req: Request): string
  {
    SystemPrompt + "\nDemande: " + req.prompt + "\nHTML:\n" + Quoted(req.html)
  }

  function BuildCall(req: Request): Call
    requires Configured(req)
  {
    Call(Endpoint(req.ollamaUrl.value), req.model.value, ModelPrompt(req), false)
  }

  /** Trailing slashes of the configured address do not change the endpoint. */
  lemma EndpointIgnoresTrailingSlash(base: string)
    ensures Endpoint(base + "/") == Endpoint(base)
  {
    assert (base + "/")[..|base|] == base;
  }

  /** An address followed by any number of slashes gives the endpoint of
      the address itself when that does not end with a slash. */
  lemma EndpointOf(b: string, w: string)
    requires All(w, IsSlash) && (b == [] || b[|b| - 1] != '/')
    ensures Endpoint(b + w) == b + "/api/generate"
  {
    StripRightRun(b, w, IsSlash);
  }

  /** The model is sent the instructions, the user's request, and the whole
      page between its delimiters, and is asked not to stream. */
  lemma CallCarriesRequest(req: Request)
    requires Configured(req)
    ensures SystemPrompt <= BuildCall(req).prompt
    ensures Contains(BuildCall(req).prompt, req.prompt)
    ensures Contains(BuildCall(req).prompt, Quoted(req.html))
    ensures BuildCall(req).model == req.model.value && !BuildCall(req).stream
  {
    var a := SystemPrompt + "\nDemande: ";
    var b := "\nHTML:\n" + Quoted(req.html);
    ContainsInfix(a, req.prompt, "\nHTML:\n");
    ContainsLeft(a + req.prompt + "\nHTML:\n", Quoted(req.html), req.prompt);
    ContainsEnd(a + req.prompt + "\nHTML:\n", Quoted(req.html));
  }

  // ---------------------------------------------------------------------
  // What the server answered
  // ---------------------------------------------------------------------

  /** The decoded body: the `response` field when the body is a JSON object
      whose field is text or missing, or the error raised while decoding or
      reading it, which includes a field that is not text, on which the tag
      search raises. */
  datatype Body = Json(response: Option<string>) | Unreadable(error: string)

  /** `requests.post` either raised, or came back with a status (`resp.ok`
      tells whether it is below 400), its text and its body. `ok` is not tied
      to `status` here, so outcomes `requests` cannot produce are admitted
      too. */
  datatype Outcome = Raised(error: string) | Responded(ok: bool, status: int, text: string, body: Body)

  // ---------------------------------------------------------------------
  // `re.search(r"<HTML_OUTPUT>(.*)</HTML_OUTPUT>", txt, re.S)`
  // ---------------------------------------------------------------------

  const OpenTag := "<HTML_OUTPUT>"
  const CloseTag := "</HTML_OUTPUT>"

  /** The group of the match: from the first opening tag to the last closing
      tag after it (`.*` is greedy and `re.S` lets it cross lines). */
  function Tagged(txt: string): (r: Option<string>)
    ensures r.Some? ==> |r.value| <= |txt|
  {
    match FirstFrom(txt, OpenTag, 0)
    case None => None
    case Some(i) =>
      match LastUpTo(txt, CloseTag, |txt|)
      case None => None
      case Some(j) => if i + |OpenTag| <= j then Some(txt[i + |OpenTag|..j]) else None
  }

  /** A match is an opening tag, the group, and a closing tag, where no
      opening tag comes earlier and no closing tag later. */
  lemma TaggedMatch(txt: string) returns (i: nat, j: nat)
    requires Tagged(txt).Some?
    ensures i + |OpenTag| <= j <= |txt| && StartsAt(txt, OpenTag, i) && StartsAt(txt, CloseTag, j)
    ensures Tagged(txt).value == txt[i + |OpenTag|..j]
    ensures forall k :: 0 <= k < i ==> !StartsAt(txt, OpenTag, k)
    ensures forall k :: j < k <= |txt| ==> !StartsAt(txt, CloseTag, k)
  {
    i := FirstFrom(txt, OpenTag, 0).value;
    j := LastUpTo(txt, CloseTag, |txt|).value;
  }

  /** Any opening tag followed, later, by a closing tag makes a match. */
  lemma TaggedFound(txt: string, a: nat, b: nat)
    requires a + |OpenTag| <= b <= |txt| && StartsAt(txt, OpenTag, a) && StartsAt(txt, CloseTag, b)
    ensures Tagged(txt).Some?
  {
    var i := FirstFrom(txt, OpenTag, 0);
    var j := LastUpTo(txt, CloseTag, |txt|);
    assert i.Some? && i.value <= a;
    assert j.Some? && b <= j.value;
  }

  // ---------------------------------------------------------------------
  // The dispatch
  // ---------------------------------------------------------------------

  const HeuristicsApplied := "Heuristiques appliquées"
  const NotConfiguredLine := "Ollama non configuré, heuristiques appliquées."
  const TaggedLine := "Réponse Ollama utilisée."
  const UntaggedLine := "Texte Ollama sans balises, pris tel quel."

  function UnavailableLine(error: string): string
  {
    "Ollama indisponible: " + error + ". " + HeuristicsApplied + "."
  }

  /** `text[:n]`. */
  function Take(s: string, n: nat): (r: string)
    ensures r <= s && |r| == if |s| <= n then |s| else n
  {
    if |s| <= n then s else s[..n]
  }

  function NotOkLine(status: int, text: string): string
  {
    "Ollama non OK: " + IntToString(status) + " " + Take(text, 160)
  }

  /** The page after the heuristics have run, and the log that explains the
      fallback followed by the heuristics' own log. */
  function Fallback(req: Request, reason: string): (string, string)
  {
    var (html, more) := Heuristics.HeuristicEdit(req.html, req.prompt);
    (html, Strip(reason + "\n" + more))
  }

  /** The model's answer, used as the page. */
  function Answer(req: Request, txt: string): (string, string)
  {
    match Tagged(txt)
    case Some(group) => (Strip(group), TaggedLine)
    case None => (if Strip(txt) != "" then Strip(txt) else req.html, UntaggedLine)
  }

  /** What `ai_edit` returns, case by case; when the body cannot be read after
      a successful status, the page is returned untouched. */
  function Dispatch(req: Request, outcome: Outcome): (string, string)
  {
    if !Configured(req) then Fallback(req, NotConfiguredLine)
    else match outcome
      case Raised(e) => Fallback(req, UnavailableLine(e))
      case Responded(ok, status, text, body) =>
        if !ok then Fallback(req, NotOkLine(status, text))
        else match body
          case Unreadable(e) => (req.html, UnavailableLine(e))
          case Json(response) => Answer(req, if response.Some? then response.value else "")
  }

  /** `ai_edit(req)`, with the updates of `used`, `html_out` and `logs` in the
      order the handler makes them; `sent` is what was posted, if anything. */
  method AiEdit(req: Request, outcome: Outcome) returns (html: string, log: string, sent: Option<Call>)
    ensures (html, log) == Dispatch(req, outcome)
    ensures sent == if Configured(req) then Some(BuildCall(req)) else None
  {
    var usedModel := false;
    html, log := req.html, "";
    sent := None;
    if Configured(req) {
      sent := Some(BuildCall(req));
      match outcome {
        case Raised(e) =>
          log := UnavailableLine(e);
        case Responded(ok, status, text, body) =>
          if ok {
            usedModel := true;
            match body {
              case Unreadable(e) =>
                log := UnavailableLine(e);
              case Json(response) =>
                var txt := if response.Some? then response.value else "";
                var m := Tagged(txt);
                if m.Some? {
                  html := Strip(m.value);
                  log := TaggedLine;
                } else {
                  html := if Strip(txt) != "" then Strip(txt) else req.html;
                  log := UntaggedLine;
                }
            }
          } else {
            log := NotOkLine(status, text);
          }
      }
    } else {
      log := NotConfiguredLine;
    }
    if !usedModel {
      var edit := Heuristics.HeuristicEdit(req.html, req.prompt);
      html := edit.0;
      log := Strip(log + "\n" + edit.1);
    }
  }

  // ---------------------------------------------------------------------
  // Properties of the dispatch
  // ---------------------------------------------------------------------

  /** Every reason for falling back starts with `Ollama`. */
  predicate FallbackReason(reason: string)
  {
    "Ollama" <= reason
  }

  /** In a fallback the final strip changes nothing: the log is the reason,
      a newline, and the heuristics' log. */
  lemma FallbackLog(req: Request, reason: string)
    requires FallbackReason(reason)
    ensures Fallback(req, reason).0 == Heuristics.HeuristicEdit(req.html, req.prompt).0
    ensures Fallback(req, reason).1 == reason + "\n" + Heuristics.HeuristicEdit(req.html, req.prompt).1
  {
    var more := Heuristics.HeuristicEdit(req.html, req.prompt).1;
    Heuristics.LogTextTrimmed(req.html, req.prompt);
    var s := reason + "\n" + more;
    assert s[0] == 'O';
    assert s[|s| - 1] == more[|more| - 1];
    StripBothUnchanged(s, IsSpace);
  }

  lemma ReasonsAreFallbackReasons(status: int, text: string, e: string)
    ensures FallbackReason(NotConfiguredLine)
    ensures FallbackReason(UnavailableLine(e))
    ensures FallbackReason(NotOkLine(status, text))
  {
  }

  /** Not configured, the call raising, or a status that is not OK: the page
      is the heuristics' page and the log explains why before the heuristics'
      own log. */
  lemma FallbackCases(req: Request, outcome: Outcome)
    requires !Configured(req) || outcome.Raised? || !outcome.ok
    ensures Dispatch(req, outcome).0 == Heuristics.HeuristicEdit(req.html, req.prompt).0
    ensures !Configured(req) ==>
      Dispatch(req, outcome).1 == NotConfiguredLine + "\n" + Heuristics.HeuristicEdit(req.html, req.prompt).1
    ensures Configured(req) && outcome.Raised? ==>
      Dispatch(req, outcome).1 == UnavailableLine(outcome.error) + "\n" + Heuristics.HeuristicEdit(req.html, req.prompt).1
    ensures Configured(req) && outcome.Responded? ==>
      Dispatch(req, outcome).1 == NotOkLine(outcome.status, outcome.text) + "\n" + Heuristics.HeuristicEdit(req.html, req.prompt).1
  {
    if !Configured(req) {
      ReasonsAreFallbackReasons(0, "", "");
      FallbackLog(req, NotConfiguredLine);
    } else if outcome.Raised? {
      ReasonsAreFallbackReasons(0, "", outcome.error);
      FallbackLog(req, UnavailableLine(outcome.error));
    } else {
      ReasonsAreFallbackReasons(outcome.status, outcome.text, "");
      FallbackLog(req, NotOkLine(outcome.status, outcome.text));
    }
  }

  /** A request left at its defaults names no model, so it is answered by the
      heuristics. */
  lemma DefaultsUseHeuristics(html: string, prompt: string, outcome: Outcome)
    ensures Dispatch(NewRequest(html, prompt), outcome).0 == Heuristics.HeuristicEdit(html, prompt).0
  {
    FallbackCases(NewRequest(html, prompt), outcome);
  }

  /** A tagged answer: the page is the trimmed text between the first opening
      tag and the last closing tag, and the heuristics do not run. */
  lemma TaggedAnswer(req: Request, status: int, text: string, txt: string)
    requires Configured(req) && Tagged(txt).Some?
    ensures var (html, log) := Dispatch(req, Responded(true, status, text, Json(Some(txt))));
      html == Strip(Tagged(txt).value) && log == TaggedLine
  {
  }

  /** An untagged answer: the page is the trimmed answer, or the original page
      when nothing but whitespace came back. */
  lemma UntaggedAnswer(req: Request, status: int, text: string, response: Option<string>)
    requires Configured(req)
    requires Tagged(if response.Some? then response.value else "").None?
    ensures var txt := if response.Some? then response.value else "";
      var (html, log) := Dispatch(req, Responded(true, status, text, Json(response)));
      html == (if Strip(txt) != "" then Strip(txt) else req.html) && log == UntaggedLine
    ensures response.None? ==> Dispatch(req, Responded(true, status, text, Json(response))).0 == req.html
  {
  }

  /** Unless the original page is kept, the page taken from the model's
      answer neither starts nor ends with whitespace. */
  lemma AnswerTrimmed(req: Request, txt: string)
    ensures var html := Answer(req, txt).0;
      html == req.html || html == [] || (!IsSpace(html[0]) && !IsSpace(html[|html| - 1]))
  {
    match Tagged(txt)
    case Some(group) =>
      var r := StripBoth(group, IsSpace);
      assert Answer(req, txt).0 == r;
    case None =>
      var r := StripBoth(txt, IsSpace);
      assert Answer(req, txt).0 == req.html || Answer(req, txt).0 == r;
  }

  // ---------------------------------------------------------------------
  // An unreadable body after a successful status
  // ---------------------------------------------------------------------

  /** As written, a body that cannot be read after a successful status gives
      back the original page with a log saying that the heuristics were
      applied, though they were not run: a FAQ request on a page with a
      `</body>` and no FAQ is one where they would have changed the page. */
  lemma UnreadableBodySkipsHeuristics(req: Request, status: int, text: string, e: string)
    requires Configured(req)
    requires Contains(req.html, Assembler.BodyClose) && !Contains(req.html, Assembler.FaqMarker)
    requires Contains(Lower(req.prompt), "faq") && Heuristics.ColourValue(Lower(req.prompt)).None?
    ensures Dispatch(req, Responded(true, status, text, Unreadable(e))) == (req.html, UnavailableLine(e))
    ensures Contains(UnavailableLine(e), HeuristicsApplied)
    ensures Dispatch(req, Responded(true, status, text, Unreadable(e))).0 != Heuristics.HeuristicEdit(req.html, req.prompt).0
  {
    Heuristics.FaqRequestChangesPage(req.html, req.prompt);
    ContainsInfix("Ollama indisponible: " + e + ". ", HeuristicsApplied, ".");
  }

  /** The dispatch as the log lines describe it: the heuristics run whenever
      the model's answer is not used. */
  function DispatchIntended(req: Request, outcome: Outcome): (string, string)
  {
    if !Configured(req) then Fallback(req, NotConfiguredLine)
    else match outcome
      case Raised(e) => Fallback(req, UnavailableLine(e))
      case Responded(ok, status, text, body) =>
        if !ok then Fallback(req, NotOkLine(status, text))
        else match body
          case Unreadable(e) => Fallback(req, UnavailableLine(e))
          case Json(response) => Answer(req, if response.Some? then response.value else "")
  }

  /** `ai_edit` with the model marked as used only once its answer has been
      read. */
  method AiEditIntended(req: Request, outcome: Outcome) returns (html: string, log: string, sent: Option<Call>)
    ensures (html, log) == DispatchIntended(req, outcome)
    ensures sent == if Configured(req) then Some(BuildCall(req)) else None
  {
    var usedModel := false;
    html, log := req.html, "";
    sent := None;
    if Configured(req) {
      sent := Some(BuildCall(req));
      match outcome {
        case Raised(e) =>
          log := UnavailableLine(e);
        case Responded(ok, status, text, body) =>
          if ok {
            match body {
              case Unreadable(e) =>
                log := UnavailableLine(e);
              case Json(response) =>
                usedModel := true;
                var txt := if response.Some? then response.value else "";
                var m := Tagged(txt);
                if m.Some? {
                  html := Strip(m.value);
                  log := TaggedLine;
                } else {
                  html := if Strip(txt) != "" then Strip(txt) else req.html;
                  log := UntaggedLine;
                }
            }
          } else {
            log := NotOkLine(status, text);
          }
      }
    } else {
      log := NotConfiguredLine;
    }
    if !usedModel {
      var edit := Heuristics.HeuristicEdit(req.html, req.prompt);
      html := edit.0;
      log := Strip(log + "\n" + edit.1);
    }
  }

  /** The intended dispatch agrees with the one as written except on an
      unreadable body after a successful status. */
  lemma IntendedAgreesElsewhere(req: Request, outcome: Outcome)
    requires !(Configured(req) && outcome.Responded? && outcome.ok && outcome.body.Unreadable?)
    ensures DispatchIntended(req, outcome) == Dispatch(req, outcome)
  {
    if Configured(req) && outcome.Responded? && outcome.ok {
      assert outcome.body.Json?;
    }
  }

  /** On an unreadable body after a successful status, the intended dispatch
      falls back on the heuristics with the unavailability reason before
      their log. */
  lemma IntendedUnreadableFallsBack(req: Request, status: int, text: string, e: string)
    requires Configured(req)
    ensures DispatchIntended(req, Responded(true, status, text, Unreadable(e))) ==
      (Heuristics.HeuristicEdit(req.html, req.prompt).0,
       UnavailableLine(e) + "\n" + Heuristics.HeuristicEdit(req.html, req.prompt).1)
  {
    var outcome := Responded(true, status, text, Unreadable(e));
    assert DispatchIntended(req, outcome) == Fallback(req, UnavailableLine(e));
    ReasonsAreFallbackReasons(0, "", e);
    FallbackLog(req, UnavailableLine(e));
  }

  /** In the intended dispatch, whenever the model's answer is not used the
      page is the heuristics' page. */
  lemma IntendedHeuristicsUnlessAnswered(req: Request, outcome: Outcome)
    requires !(Configured(req) && outcome.Responded? && outcome.ok && outcome.body.Json?)
    ensures DispatchIntended(req, outcome).0 == Heuristics.HeuristicEdit(req.html, req.prompt).0
  {
    if Configured(req) && outcome.Responded? && outcome.ok {
      IntendedUnreadableFallsBack(req, outcome.status, outcome.text, outcome.body.error);
    } else {
      IntendedAgreesElsewhere(req, outcome);
      FallbackCases(req, outcome);
    }
  }
}
