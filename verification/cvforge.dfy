/** The CV Forge endpoints: a general resume parser, an academic CV parser
    and a CV enrichment step. Each one sends text to the language model and
    repairs its reply with `cleanJson` before answering. */
module CvForge {
  import opened Wrappers
  import opened Text
  import opened Json
  import opened Oracles
  import CvStore

  /* ---------------- cleanJson ---------------- */

  const Fence: string := "```"
  const JsonFence: string := "```json"

  /** The first brace replace (pattern `^[^{]*`): drop everything before the first `{`, or the
      whole string when it has none. */
  function DropBeforeBrace(s: string): (r: string)
    ensures |r| <= |s| && r == s[|s| - |r|..]
    ensures forall i :: 0 <= i < |s| - |r| ==> s[i] != '{'
    ensures r == [] || r[0] == '{'
  {
    if s == [] || s[0] == '{' then s else DropBeforeBrace(s[1..])
  }

  /** The second brace replace (pattern `[^}]*$`): drop everything after the last `}`, or the
      whole string when it has none. */
  function DropAfterCloseBrace(s: string): (r: string)
    ensures |r| <= |s| && r == s[..|r|]
    ensures forall i :: |r| <= i < |s| ==> s[i] != '}'
    ensures r == [] || r[|r| - 1] == '}'
  {
    if s == [] || s[|s| - 1] == '}' then s else DropAfterCloseBrace(s[..|s| - 1])
  }

  /** The fence-free, trimmed text before the braces are cut. */
  function Unfenced(text: string): string {
    Trim(RemoveAll(RemoveAll(text, JsonFence), Fence))
  }

  /** The text `cleanJson` hands to `JSON.parse`. */
  function Cleaned(text: string): string {
    DropAfterCloseBrace(DropBeforeBrace(Unfenced(text)))
  }

  /** What `cleanJson` returns: the parsed value, or the error marker holding
      the text as it was when parsing failed (`raw`; `None` stands for a
      null message content, on which the first `replace` throws). */
  datatype CleanResult = Parsed(value: Json) | Invalid(raw: Option<string>) {
    /** The result as the JSON value sent in the response body. */
    function AsJson(): (j: Json)
      ensures Parsed? ==> j == value
      ensures Invalid? ==> j.JObj? && "error" in j.fields && j.fields["error"] == JStr("Invalid JSON")
    {
      match this
      case Parsed(v) => v
      case Invalid(raw) =>
        JObj(map["error" := JStr("Invalid JSON"), "raw" := if raw.Some? then JStr(raw.value) else JNull])
    }
  }

  /** `cleanJson(content)`. */
  function CleanJson(content: Option<string>, parse: JsonParser): (r: CleanResult)
    ensures content.None? ==> r == Invalid(None)
    ensures content.Some? && r.Parsed? ==> parse(Cleaned(content.value)) == Some(r.value)
    ensures content.Some? && r.Invalid? ==> r.raw == Some(Cleaned(content.value))
    ensures content.Some? ==> (r.Parsed? <==> parse(Cleaned(content.value)).Some?)
  {
    if content.None? then Invalid(None)
    else
      var t := Cleaned(content.value);
      match parse(t)
      case Some(v) => Parsed(v)
      case None => Invalid(Some(t))
  }

  /* ---------------- properties of the cleaning ---------------- */

  /** After the global removal of "```" no fence is left: a fence in the
      output would need three backticks that survived side by side. */
  lemma {:induction false} NoFenceAfterRemoval(s: string)
    ensures !Contains(RemoveAll(s, Fence), Fence)
    decreases |s|
  {
    if |s| > 0 {
      if Fence <= s {
        NoFenceAfterRemoval(s[3..]);
      } else {
        NoFenceAfterRemoval(s[1..]);
        var rest := RemoveAll(s[1..], Fence);
        var r := [s[0]] + rest;
        assert r == RemoveAll(s, Fence);
        assert r[1..] == rest;
      }
    }
  }

  /** Characters kept by `RemoveAll` come from its input. */
  lemma {:induction false} RemoveAllKeeps(s: string, p: string, c: char)
    requires |p| > 0 && c !in s
    ensures c !in RemoveAll(s, p)
    decreases |s|
  {
    if |s| > 0 {
      if p <= s {
        RemoveAllKeeps(s[|p|..], p, c);
      } else {
        RemoveAllKeeps(s[1..], p, c);
      }
    }
  }

  /** The text handed to `JSON.parse` holds no code fence, whatever the
      model wrapped its answer in. */
  lemma NoFenceReachesParser(text: string)
    ensures !Contains(Cleaned(text), Fence)
  {
    NoFenceAfterRemoval(RemoveAll(text, JsonFence));
    CuttingKeepsFenceOut(RemoveAll(RemoveAll(text, JsonFence), Fence));
  }

  /** Trimming and cutting at the braces only take substrings. */
  lemma CuttingKeepsFenceOut(a: string)
    requires !Contains(a, Fence)
    ensures !Contains(DropAfterCloseBrace(DropBeforeBrace(Trim(a))), Fence)
  {
    TrimKeepsFenceOut(a);
    DropBeforeKeepsFenceOut(Trim(a));
    DropAfterKeepsFenceOut(DropBeforeBrace(Trim(a)));
  }

  lemma DropBeforeKeepsFenceOut(u: string)
    requires !Contains(u, Fence)
    ensures !Contains(DropBeforeBrace(u), Fence)
  {
    SubstringAvoids(u, Fence, |u| - |DropBeforeBrace(u)|, |u|);
  }

  lemma DropAfterKeepsFenceOut(b: string)
    requires !Contains(b, Fence)
    ensures !Contains(DropAfterCloseBrace(b), Fence)
  {
    SubstringAvoids(b, Fence, 0, |DropAfterCloseBrace(b)|);
  }

  lemma TrimKeepsFenceOut(a: string)
    requires !Contains(a, Fence)
    ensures !Contains(Trim(a), Fence)
  {
    var l := LeadingSpaces(a);
    SubstringAvoids(a, Fence, l, l + |Trim(a)|);
  }

  /** The text handed to `JSON.parse` is empty or runs from a `{` to a `}`. */
  lemma CleanedIsBraced(text: string)
    ensures var t := Cleaned(text); t == [] || (t[0] == '{' && t[|t| - 1] == '}')
  {
    BracesCut(Unfenced(text));
  }

  lemma BracesCut(u: string)
    ensures var t := DropAfterCloseBrace(DropBeforeBrace(u)); t == [] || (t[0] == '{' && t[|t| - 1] == '}')
  {
    var b := DropBeforeBrace(u);
    var t := DropAfterCloseBrace(b);
    if t != [] {
      assert t[0] == b[0];
    }
  }

  /** A reply without any `{` cleans to the empty string, so (as `JSON.parse`
      rejects "") it always yields the error marker with an empty `raw`. */
  lemma NoBraceIsInvalid(content: string, parse: JsonParser)
    requires '{' !in content && parse("") == None
    ensures CleanJson(Some(content), parse) == Invalid(Some(""))
  {
    RemoveAllKeeps(content, JsonFence, '{');
    RemoveAllKeeps(RemoveAll(content, JsonFence), Fence, '{');
    var u := Unfenced(content);
    assert '{' !in u;
  }

  /** A reply that is already a bare JSON object (no fence, braces at both
      ends after trimming) reaches `JSON.parse` exactly as trimmed. */
  lemma BareObjectUnchanged(content: string)
    requires !Contains(content, Fence)
    requires var t := Trim(content); |t| > 0 && t[0] == '{' && t[|t| - 1] == '}'
    ensures Cleaned(content) == Trim(content)
  {
    if Contains(content, JsonFence) {
      ContainsShorterPrefix(content, JsonFence, Fence);
    }
    RemoveAllAbsent(content, JsonFence);
    RemoveAllAbsent(content, Fence);
  }

  /** A string containing `p` contains every prefix of `p`. */
  lemma {:induction false} ContainsShorterPrefix(s: string, p: string, q: string)
    requires q <= p && Contains(s, p)
    ensures Contains(s, q)
    decreases |s|
  {
    if !(p <= s) {
      ContainsShorterPrefix(s[1..], p, q);
    }
  }

  /* ---------------- the endpoints ---------------- */

  /** The uploaded file as multer hands it over. */
  datatype Upload = Upload(mimetype: string, buffer: seq<CvStore.byte>)

  /** Either an HTTP error, or a 200 answer together with the text placed in
      the prompt (`sent`). */
  datatype ParseResponse =
    | Rejected(status: nat, error: string)
    | Answered(body: Json, sent: string)

  /** The extracted text: the PDF extractor when the MIME type mentions
      "pdf", the DOCX extractor otherwise. */
  function ExtractText(file: Upload, pdf: Extractor, docx: Extractor): Result<string, string> {
    if Contains(file.mimetype, "pdf") then TextOr(pdf(file.buffer)) else TextOr(docx(file.buffer))
  }

  /** Most characters of the resume text placed in the `parseResume` prompt. */
  const ResumeExcerpt: nat := 6000
  /** Most characters of the CV text placed in the `employeeParser` prompt. */
  const AcademicExcerpt: nat := 15000

  /** The shared tail of both parsers: send the first `limit` characters,
      clean the reply. */
  function AskModel(text: string, limit: nat, llm: string -> LlmReply, parse: JsonParser): (r: ParseResponse)
    ensures r.Answered? <==> llm(Take(text, limit)).LlmContent?
    ensures r.Answered? ==> r.sent == Take(text, limit) && r.body == CleanJson(llm(r.sent).content, parse).AsJson()
    ensures r.Rejected? ==> r.status == 500
  {
    var excerpt := Take(text, limit);
    match llm(excerpt)
    case LlmFailed => Rejected(500, "model request failed")
    case LlmContent(c) => Answered(CleanJson(c, parse).AsJson(), excerpt)
  }

  /** `parseResume`: 400 without a file or when the text is blank, 500 when
      extraction or the model fails, otherwise the cleaned reply to a prompt
      holding the first 6000 characters of the text. */
  function ParseResume(file: Option<Upload>, pdf: Extractor, docx: Extractor,
                       llm: string -> LlmReply, parse: JsonParser): (r: ParseResponse)
    ensures file.None? ==> r == Rejected(400, "File required")
    ensures file.Some? && ExtractText(file.value, pdf, docx).Failure? ==> r.Rejected? && r.status == 500
    ensures file.Some? && ExtractText(file.value, pdf, docx).Success? ==>
              var text := ExtractText(file.value, pdf, docx).value;
              (Trim(text) == [] ==> r == Rejected(400, "No readable text found"))
              && (Trim(text) != [] ==> r == AskModel(text, ResumeExcerpt, llm, parse))
              && (r.Answered? ==> Trim(text) != [] && r.sent <= text
                                  && |r.sent| == (if |text| <= ResumeExcerpt then |text| else ResumeExcerpt))
    ensures r.Answered? ==> file.Some?
  {
    if file.None? then Rejected(400, "File required")
    else
      match ExtractText(file.value, pdf, docx)
      case Failure(e) => Rejected(500, e)
      case Success(text) =>
        if Trim(text) == [] then Rejected(400, "No readable text found")
        else AskModel(text, ResumeExcerpt, llm, parse)
  }

  /** `employeeParser`: like `parseResume` but without the blank-text check
      and with a 15000-character excerpt. */
  function EmployeeParser(file: Option<Upload>, pdf: Extractor, docx: Extractor,
                          llm: string -> LlmReply, parse: JsonParser): (r: ParseResponse)
    ensures file.None? ==> r == Rejected(400, "File required")
    ensures file.Some? && ExtractText(file.value, pdf, docx).Failure? ==> r.Rejected? && r.status == 500
    ensures file.Some? && ExtractText(file.value, pdf, docx).Success? ==>
              r == AskModel(ExtractText(file.value, pdf, docx).value, AcademicExcerpt, llm, parse)
    ensures r.Answered? ==>
              (file.Some? && ExtractText(file.value, pdf, docx).Success?
               && var text := ExtractText(file.value, pdf, docx).value;
                  r.sent <= text && |r.sent| == (if |text| <= AcademicExcerpt then |text| else AcademicExcerpt))
  {
    if file.None? then Rejected(400, "File required")
    else
      match ExtractText(file.value, pdf, docx)
      case Failure(e) => Rejected(500, e)
      case Success(text) => AskModel(text, AcademicExcerpt, llm, parse)
  }

  /** A file whose MIME type mentions "pdf" is read by the PDF extractor
      only: the DOCX extractor cannot influence the answer, and the other
      way round. */
  lemma ExtractorDispatch(file: Upload, pdf: Extractor, pdf': Extractor, docx: Extractor, docx': Extractor,
                          llm: string -> LlmReply, parse: JsonParser)
    ensures Contains(file.mimetype, "pdf") ==>
              ParseResume(Some(file), pdf, docx, llm, parse) == ParseResume(Some(file), pdf, docx', llm, parse)
              && EmployeeParser(Some(file), pdf, docx, llm, parse) == EmployeeParser(Some(file), pdf, docx', llm, parse)
    ensures !Contains(file.mimetype, "pdf") ==>
              ParseResume(Some(file), pdf, docx, llm, parse) == ParseResume(Some(file), pdf', docx, llm, parse)
              && EmployeeParser(Some(file), pdf, docx, llm, parse) == EmployeeParser(Some(file), pdf', docx, llm, parse)
  {
  }

  /** Blank text is where the two parsers part: with a model that answers,
      `employeeParser` sends the blank text and returns the cleaned reply,
      while `parseResume` refuses it with 400. */
  lemma BlankTextParsers(file: Upload, pdf: Extractor, docx: Extractor,
                         llm: string -> LlmReply, parse: JsonParser)
    requires ExtractText(file, pdf, docx).Success?
    requires var text := ExtractText(file, pdf, docx).value; Trim(text) == [] && llm(Take(text, AcademicExcerpt)).LlmContent?
    ensures ParseResume(Some(file), pdf, docx, llm, parse) == Rejected(400, "No readable text found")
    ensures var text := ExtractText(file, pdf, docx).value;
            EmployeeParser(Some(file), pdf, docx, llm, parse)
              == Answered(CleanJson(llm(Take(text, AcademicExcerpt)).content, parse).AsJson(), Take(text, AcademicExcerpt))
  {
  }

  /** Non-blank text and a model that answers: `parseResume` returns the
      cleaned reply to the excerpt, so the only 500 left is a failed model
      call or extraction. */
  lemma ResumeAnswered(file: Upload, pdf: Extractor, docx: Extractor,
                       llm: string -> LlmReply, parse: JsonParser)
    requires ExtractText(file, pdf, docx).Success?
    requires var text := ExtractText(file, pdf, docx).value; Trim(text) != [] && llm(Take(text, ResumeExcerpt)).LlmContent?
    ensures var text := ExtractText(file, pdf, docx).value;
            ParseResume(Some(file), pdf, docx, llm, parse)
              == Answered(CleanJson(llm(Take(text, ResumeExcerpt)).content, parse).AsJson(), Take(text, ResumeExcerpt))
  {
  }

  /** On the same file the two parsers differ only in the excerpt length and
      the blank-text check: when the text has at most 6000 characters and is
      not blank, both send the whole text. */
  lemma ShortTextSentWhole(file: Upload, pdf: Extractor, docx: Extractor,
                           llm: string -> LlmReply, parse: JsonParser)
    requires ExtractText(file, pdf, docx).Success?
    requires var text := ExtractText(file, pdf, docx).value; |text| <= ResumeExcerpt && Trim(text) != []
    ensures ParseResume(Some(file), pdf, docx, llm, parse) == EmployeeParser(Some(file), pdf, docx, llm, parse)
  {
  }

  /* ---------------- enrichCv ---------------- */

  /** The own enumerable properties an object spread copies from a value:
      an object's members, the elements of an array or the characters of a
      string under their decimal indices, nothing from other values. */
  function SpreadOf(v: Json): (m: map<string, Json>)
    ensures v.JObj? ==> m == v.fields
    ensures v.JArr? ==> forall i :: 0 <= i < |v.items| ==> Decimal(i) in m && m[Decimal(i)] == v.items[i]
    ensures v.JStr? ==> forall i :: 0 <= i < |v.str| ==> Decimal(i) in m && m[Decimal(i)] == JStr([v.str[i]])
    ensures v.JNull? || v.JBool? || v.JNum? ==> m == map[]
  {
    match v
    case JObj(f) => f
    case JArr(xs) => IndexMap(xs)
    case JStr(s) => IndexMap(seq(|s|, i requires 0 <= i < |s| => JStr([s[i]])))
    case _ => map[]
  }

  /** The map from decimal index to element. */
  function IndexMap(xs: seq<Json>): (m: map<string, Json>)
    ensures forall i :: 0 <= i < |xs| ==> Decimal(i) in m && m[Decimal(i)] == xs[i]
    ensures forall k :: k in m ==> exists i :: 0 <= i < |xs| && k == Decimal(i)
  {
    if xs == [] then map[]
    else
      var n := |xs| - 1;
      var m := IndexMap(xs[..n])[Decimal(n) := xs[n]];
      assert forall i :: 0 <= i < n ==> Decimal(i) != Decimal(n) by {
        forall i | 0 <= i < n ensures Decimal(i) != Decimal(n) {
          DecimalInjective(i, n);
        }
      }
      m
  }

  lemma DecimalInjective(i: nat, j: nat)
    ensures Decimal(i) == Decimal(j) ==> i == j
  {
    assert DigitsValue(Decimal(i)) == i && DigitsValue(Decimal(j)) == j;
  }

  /** The `enrichCv` answer. */
  datatype EnrichResponse =
    | EnrichRejected(status: nat, error: string)
    | Enriched(combinedCv: Json, suggestions: Json)

  /** `enrichCv`: both `parsed_data` and `selected_fields` must be truthy;
      the combined CV is `parsed_data` spread into a new object with the
      cleaned model reply under `ai_enrichment`, which is also returned on
      its own. */
  function EnrichCv(parsedData: Option<Json>, selectedFields: Option<Json>,
                    llm: (Json, Json) -> LlmReply, parse: JsonParser): (r: EnrichResponse)
    ensures !Truthy(parsedData) || !Truthy(selectedFields) ==> r.EnrichRejected? && r.status == 400
    ensures (Truthy(parsedData) && Truthy(selectedFields) && llm(parsedData.value, selectedFields.value).LlmFailed?)
            ==> r.EnrichRejected? && r.status == 500
    ensures (Truthy(parsedData) && Truthy(selectedFields) && llm(parsedData.value, selectedFields.value).LlmContent?)
            ==> r.Enriched? && r.suggestions == CleanJson(llm(parsedData.value, selectedFields.value).content, parse).AsJson()
    ensures r.Enriched? ==>
              (r.combinedCv.JObj? && "ai_enrichment" in r.combinedCv.fields
               && r.combinedCv.fields["ai_enrichment"] == r.suggestions
               && (forall k :: k in SpreadOf(parsedData.value) && k != "ai_enrichment" ==>
                     k in r.combinedCv.fields && r.combinedCv.fields[k] == SpreadOf(parsedData.value)[k])
               && (forall k :: k in r.combinedCv.fields ==> k == "ai_enrichment" || k in SpreadOf(parsedData.value)))
  {
    if !Truthy(parsedData) || !Truthy(selectedFields) then
      EnrichRejected(400, "parsed_data and selected_fields required")
    else
      match llm(parsedData.value, selectedFields.value)
      case LlmFailed => EnrichRejected(500, "model request failed")
      case LlmContent(c) =>
        var enriched := CleanJson(c, parse).AsJson();
        Enriched(JObj(SpreadOf(parsedData.value)["ai_enrichment" := enriched]), enriched)
  }
}
