/** The decisions of the `/optimize` request handler (`optimize_resume`, app.py:55-164): the
    checks on the uploaded file, the bearer token taken from the `Authorization` header, the
    dispatch on the file's media type, and, once the language model has answered, the HTTP
    response and the history record. The services the handler calls (token verification, the
    PDF, DOCX and image readers, the language model, the JSON decoder) are the fields of a
    `Services` value; a `None` from one of them stands for the exception it raises. */
module ResumeHandler {
  import opened Wrappers
  import opened PyStr
  import opened JsonValue
  import opened ResponseExtractor

  type Bytes = seq<bv8>

  /** An uploaded file part: the client's file name, the declared media type, the content. */
  datatype Upload = Upload(filename: string, mimetype: string, content: Bytes)

  /** What the handler reads from the multipart request: the file parts by field name, the
      form fields, and the `Authorization` header if there is one. */
  datatype Request = Request(
    files: map<string, Upload>,
    form: map<string, string>,
    authorization: Option<string>)

  /** One element of the prompt sent to the model: the instructions with the job description
      spliced in, a text, or an image. */
  datatype PromptPart = Instructions(jobDescription: string) | Text(text: string) | Image(content: Bytes)

  /** The outcome of calling the model: it raised, it answered with no parts (a safety block),
      or it answered with text. */
  datatype ModelReply = CallRaised | Blocked | Answered(text: string)

  /** The collaborators of the handler. */
  datatype Services = Services(
    verifyIdToken: string -> Option<string>,      // the uid of a valid token
    pdfPageTexts: Bytes -> Option<seq<string>>,   // the text of each page of a PDF
    docxParagraphs: Bytes -> Option<seq<string>>, // the text of each paragraph of a DOCX
    imageOpens: Bytes -> bool,                    // whether the image library can open it
    generate: seq<PromptPart> -> ModelReply,
    parse: Parser)

  /** An HTTP status with a JSON body. */
  datatype Response = Response(status: nat, body: Json)

  /** The record the handler adds to a user's history (the server timestamp aside). */
  datatype HistoryEntry = HistoryEntry(uid: string, jobDescription: string, matchScore: Json, fullAnalysis: Json)

  /** An error response: the status and a body `{"error": message}`. */
  function ErrorResponse(status: nat, message: string): Response {
    Response(status, JObject(map["error" := JString(message)]))
  }

  // ---------------------------------------------------------------------------------------
  // Inputs and authentication

  /** `request.form.get('job_description', '')`. */
  function JobDescription(req: Request): string {
    if "job_description" in req.form then req.form["job_description"] else []
  }

  const BearerPrefix: string := "Bearer "

  /** The token of an `Authorization` header: present when the header starts with "Bearer ",
      and then the second piece of `header.split("Bearer ")`. */
  function BearerToken(header: Option<string>): (token: Option<string>)
    ensures token.Some? <==> header.Some? && StartsWith(header.value, BearerPrefix)
  {
    if header.Some? && header.value != [] && StartsWith(header.value, BearerPrefix) then
      assert OccursAt(header.value, BearerPrefix, 0) by {
        assert header.value[0..|BearerPrefix|] == header.value[..|BearerPrefix|];
      }
      Some(Split(header.value, BearerPrefix)[1])
    else
      None
  }

  /** The user id: the uid the verifier returns for the bearer token; nothing when there is no
      token or the verifier raises. */
  function UserId(header: Option<string>, verifyIdToken: string -> Option<string>): (uid: Option<string>)
    ensures uid.Some? ==> BearerToken(header).Some? && uid == verifyIdToken(BearerToken(header).value)
    ensures BearerToken(header).Some? ==> uid == verifyIdToken(BearerToken(header).value)
  {
    match BearerToken(header)
    case None => None
    case Some(token) => verifyIdToken(token)
  }

  /** `if user_id`: a present, non-empty uid. */
  predicate HasUser(userId: Option<string>) {
    userId.Some? && userId.value != []
  }

  /** The handler has a signed-in user exactly when the header carries a bearer token and the
      verifier returns a non-empty uid for it. */
  lemma SignedInUser(header: Option<string>, verifyIdToken: string -> Option<string>)
    ensures HasUser(UserId(header, verifyIdToken)) <==>
      BearerToken(header).Some? && verifyIdToken(BearerToken(header).value).Some? &&
      verifyIdToken(BearerToken(header).value).value != []
  {
  }

  /** The token is the text after the leading "Bearer " up to the next "Bearer ", or up to the
      end of the header when there is none. */
  lemma BearerTokenSpan(header: string)
    requires StartsWith(header, BearerPrefix)
    ensures var next := Find(header, BearerPrefix, |BearerPrefix|);
      BearerToken(Some(header)) == Some(if next == -1 then header[|BearerPrefix|..] else header[|BearerPrefix|..next])
  {
    var n := |BearerPrefix|;
    var rest := header[n..];
    assert header == header[..n] + rest;
    assert OccursAt(header, BearerPrefix, 0) by {
      assert header[0..n] == header[..n];
    }
    assert Find(header, BearerPrefix, 0) == 0;
    assert Split(header, BearerPrefix) == [header[..0]] + Split(rest, BearerPrefix);
    FindAfterPrefix(header[..n], rest, BearerPrefix, 0);
    var inRest := Find(rest, BearerPrefix, 0);
    if inRest == -1 {
      assert Split(rest, BearerPrefix) == [rest];
    } else {
      assert Split(rest, BearerPrefix)[0] == rest[..inRest];
      assert rest[..inRest] == header[n..n + inRest];
    }
  }

  /** "Bearer " followed by `t` yields the token `t` exactly when `t` does not itself contain
      "Bearer "; and no token ever contains it. */
  lemma BearerTokenRoundTrip(t: string)
    ensures BearerToken(Some(BearerPrefix + t)) == Some(t) <==> !Contains(t, BearerPrefix)
    ensures !Contains(BearerToken(Some(BearerPrefix + t)).value, BearerPrefix)
  {
    var header := BearerPrefix + t;
    var n := |BearerPrefix|;
    assert header[..n] == BearerPrefix;
    assert header[n..] == t;
    BearerTokenSpan(header);
    FindAfterPrefix(BearerPrefix, t, BearerPrefix, 0);
    var next := Find(t, BearerPrefix, 0);
    if next != -1 {
      assert |header[n..n + next]| < |t|;
      assert header[n..n + next] == t[..next];
      assert !Contains(t[..next], BearerPrefix) by {
        ContainsIff(t[..next], BearerPrefix);
        forall j | OccursAt(t[..next], BearerPrefix, j) ensures false {
          OccursInPrefix(t, next, BearerPrefix, j);
        }
      }
    }
  }

  // ---------------------------------------------------------------------------------------
  // The uploaded document

  const PdfType: string := "application/pdf"
  const DocxType: string := "application/vnd.openxmlformats-officedocument.wordprocessingml.document"
  const JpegType: string := "image/jpeg"
  const PngType: string := "image/png"

  /** The media types the handler accepts. */
  const AcceptedTypes: set<string> := {PdfType, DocxType, JpegType, PngType}

  /** The caption put before an image in the prompt. */
  const ImageCaption: string := "Analyze the resume in the following image."

  datatype DocumentKind = Pdf | Docx | Picture | Unsupported

  /** The branch the handler takes on the declared media type. */
  function Classify(mimetype: string): (k: DocumentKind)
    ensures k == Unsupported <==> mimetype !in AcceptedTypes
    ensures k == Picture <==> mimetype == JpegType || mimetype == PngType
    ensures k == Pdf <==> mimetype == PdfType
  {
    if mimetype == PdfType then Pdf
    else if mimetype == DocxType then Docx
    else if mimetype in [JpegType, PngType] then Picture
    else Unsupported
  }

  /** What an accepted document adds to the prompt: the concatenated page texts of a PDF, the
      paragraphs of a DOCX joined by newlines, or the image caption and the image; nothing
      when the reader raises. */
  function DocumentParts(kind: DocumentKind, content: Bytes, svc: Services): (parts: Option<seq<PromptPart>>)
    requires kind != Unsupported
    ensures parts.None? <==>
      || (kind == Pdf && svc.pdfPageTexts(content).None?)
      || (kind == Docx && svc.docxParagraphs(content).None?)
      || (kind == Picture && !svc.imageOpens(content))
    ensures parts.Some? && kind != Picture ==> |parts.value| == 1 && parts.value[0].Text?
    ensures parts.Some? && kind == Picture ==> parts.value == [Text(ImageCaption), Image(content)]
    ensures parts.Some? && kind == Pdf ==> parts.value == [Text(Join([], svc.pdfPageTexts(content).value))]
    ensures parts.Some? && kind == Docx ==> parts.value == [Text(Join("\n", svc.docxParagraphs(content).value))]
  {
    match kind
    case Pdf =>
      (match svc.pdfPageTexts(content)
       case Some(pages) => Some([Text(Join([], pages))])
       case None => None)
    case Docx =>
      (match svc.docxParagraphs(content)
       case Some(paragraphs) => Some([Text(Join("\n", paragraphs))])
       case None => None)
    case Picture =>
      if svc.imageOpens(content) then Some([Text(ImageCaption), Image(content)]) else None
  }

  // ---------------------------------------------------------------------------------------
  // The answer and the history record

  /** The response once the model has answered: the decoded value with status 200 when it is
      truthy; otherwise (no value, `null`, `{}`, `[]`, `""`, `0`, `false`) a 500 error. */
  function Reply(out: Option<Json>): (r: Response)
    ensures r.status == 200 <==> OutputTruthy(out)
    ensures r.status == 200 ==> r.body == out.value
    ensures r.status != 200 ==> r == ErrorResponse(500, "AI failed to return valid JSON.")
  {
    if OutputTruthy(out) then Response(200, out.value)
    else ErrorResponse(500, "AI failed to return valid JSON.")
  }

  /** The stored job description: its first 200 characters followed by "...", which is added
      even when nothing was cut. */
  function StoredDescription(jd: string): (r: string)
    ensures |r| >= 3 && r[|r| - 3..] == "..."
    ensures StartsWith(jd, r[..|r| - 3])
    ensures |jd| <= 200 ==> r == jd + "..."
    ensures |jd| >= 200 ==> |r| == 203
  {
    var kept := Slice(jd, 0, 200);
    assert kept == jd[..|kept|];
    kept + "..."
  }

  /** `out.get('skill_matching', {}).get('score', 0)`: nothing when either `.get` is applied
      to a value that is not a dict (which raises); 0 when a key is missing. */
  function MatchScore(out: Json): (score: Option<Json>)
    ensures score.Some? <==>
      out.JObject? && ("skill_matching" !in out.members || out.members["skill_matching"].JObject?)
    ensures out.JObject? && "skill_matching" !in out.members ==> score == Some(JNumber(0.0))
    ensures out.JObject? && "skill_matching" in out.members && out.members["skill_matching"].JObject?
            && "score" in out.members["skill_matching"].members
            ==> score == Some(out.members["skill_matching"].members["score"])
    ensures out.JObject? && "skill_matching" in out.members && out.members["skill_matching"].JObject?
            && "score" !in out.members["skill_matching"].members
            ==> score == Some(JNumber(0.0))
  {
    match out
    case JObject(members) =>
      var section := if "skill_matching" in members then members["skill_matching"] else JObject(map[]);
      (match section
       case JObject(fields) => Some(if "score" in fields then fields["score"] else JNumber(0.0))
       case _ => None)
    case _ => None
  }

  /** The history record written for an answer: only for a signed-in user and a truthy
      decoded value, and only when the match score can be read (otherwise the write raises
      and is skipped). */
  function HistoryRecord(userId: Option<string>, out: Option<Json>, jd: string): (r: Option<HistoryEntry>)
    ensures r.Some? <==> HasUser(userId) && OutputTruthy(out) && MatchScore(out.value).Some?
    ensures r.Some? ==> r.value.uid == userId.value && r.value.fullAnalysis == out.value
    ensures r.Some? ==> r.value.jobDescription == StoredDescription(jd)
    ensures r.Some? ==> Some(r.value.matchScore) == MatchScore(out.value)
  {
    if HasUser(userId) && OutputTruthy(out) then
      match MatchScore(out.value)
      case Some(score) => Some(HistoryEntry(userId.value, StoredDescription(jd), score, out.value))
      case None => None
    else None
  }

  /** A record is written only alongside a 200 response carrying the recorded analysis. */
  lemma RecordOnlyWithSuccess(userId: Option<string>, out: Option<Json>, jd: string)
    requires HistoryRecord(userId, out, jd).Some?
    ensures Reply(out) == Response(200, HistoryRecord(userId, out, jd).value.fullAnalysis)
  {
  }

  /** A signed-in user's non-empty object answer is always recorded when its `skill_matching`
      section, if any, is an object. */
  lemma ObjectAnswerRecorded(uid: string, members: map<string, Json>, jd: string)
    requires uid != [] && members != map[]
    requires "skill_matching" in members ==> members["skill_matching"].JObject?
    ensures HistoryRecord(Some(uid), Some(JObject(members)), jd).Some?
  {
  }

  // ---------------------------------------------------------------------------------------
  // The handler

  /** Step 4 of `optimize_resume`: the reader the mimetype selects turns the upload into prompt
      parts, or raises (nothing). The method takes the handler's branches and early returns
      one by one; `DocumentParts` states their outcome as one value, and the `ensures` ties
      the two, so that `OptimizeResume` is proved against the function. */
  method ReadDocument(kind: DocumentKind, content: Bytes, svc: Services) returns (parts: Option<seq<PromptPart>>)
    requires kind != Unsupported
    ensures parts == DocumentParts(kind, content, svc)
  {
    match kind {
      case Pdf =>
        var pages := svc.pdfPageTexts(content);
        if pages.None? {
          return None;
        }
        parts := Some([Text(Join([], pages.value))]);
      case Docx =>
        var paragraphs := svc.docxParagraphs(content);
        if paragraphs.None? {
          return None;
        }
        parts := Some([Text(Join("\n", paragraphs.value))]);
      case Picture =>
        if !svc.imageOpens(content) {
          return None;
        }
        parts := Some([Text(ImageCaption), Image(content)]);
    }
  }

  /** The end of `optimize_resume` once the model has answered: the answer is decoded, a
      history record is built for a signed-in user whose answer is truthy and has a usable
      score, and the response is the decoded answer or a 500. As with `ReadDocument`, the
      method follows the handler's statements and `Reply` and `HistoryRecord` state their
      outcome; the `ensures` ties the two. */
  method Respond(text: string, userId: Option<string>, jd: string, parse: Parser)
    returns (resp: Response, record: Option<HistoryEntry>)
    ensures resp == Reply(ExtractJson(text, parse))
    ensures record == HistoryRecord(userId, ExtractJson(text, parse), jd)
  {
    var out := ExtractJson(text, parse);
    record := None;
    // the history record, for a signed-in user and a truthy answer
    if HasUser(userId) && OutputTruthy(out) {
      var score := MatchScore(out.value);
      if score.Some? {
        record := Some(HistoryEntry(userId.value, StoredDescription(jd), score.value, out.value));
      }
    }
    if OutputTruthy(out) {
      resp := Response(200, out.value);
    } else {
      resp := ErrorResponse(500, "AI failed to return valid JSON.");
    }
  }

  /** `optimize_resume`. Besides the response it returns the prompt sent to the model (nothing
      when the request ends before the call) and the history record written. */
  method OptimizeResume(req: Request, svc: Services)
    returns (resp: Response, sent: Option<seq<PromptPart>>, record: Option<HistoryEntry>)
    ensures "resume_file" !in req.files ==>
      resp == ErrorResponse(400, "No resume file part") && sent == None && record == None
    ensures "resume_file" in req.files && req.files["resume_file"].filename == [] ==>
      resp == ErrorResponse(400, "No selected file") && sent == None && record == None
    ensures "resume_file" in req.files && req.files["resume_file"].filename != [] ==>
      var file := req.files["resume_file"];
      var kind := Classify(file.mimetype);
      && (kind == Unsupported ==>
           resp == ErrorResponse(400, "Unsupported file type: " + file.mimetype) && sent == None && record == None)
      && (kind != Unsupported && DocumentParts(kind, file.content, svc).None? ==>
           resp == ErrorResponse(500, "Could not extract content from the file.") && sent == None && record == None)
      && (kind != Unsupported && DocumentParts(kind, file.content, svc).Some? ==>
           sent == Some([Instructions(JobDescription(req))] + DocumentParts(kind, file.content, svc).value))
    ensures sent.Some? ==>
      match svc.generate(sent.value)
      case CallRaised =>
        resp == ErrorResponse(500, "Failed to get response from the AI model.") && record == None
      case Blocked =>
        resp == ErrorResponse(400, "Response was blocked due to safety filters.") && record == None
      case Answered(text) =>
        var out := ExtractJson(text, svc.parse);
        resp == Reply(out) &&
        record == HistoryRecord(UserId(req.authorization, svc.verifyIdToken), out, JobDescription(req))
  {
    sent, record := None, None;
    // 1. inputs
    if "resume_file" !in req.files {
      resp := ErrorResponse(400, "No resume file part");
      return;
    }
    var file := req.files["resume_file"];
    var jobDescription := JobDescription(req);
    if file.filename == [] {
      resp := ErrorResponse(400, "No selected file");
      return;
    }

    // 2. optional authentication
    var userId: Option<string> := None;
    var token := BearerToken(req.authorization);
    if token.Some? {
      var decoded := svc.verifyIdToken(token.value);
      if decoded.Some? {
        userId := decoded;
      }
    }

    // 3. and 4. the prompt: instructions, then what the document contributes
    var kind := Classify(file.mimetype);
    if kind == Unsupported {
      resp := ErrorResponse(400, "Unsupported file type: " + file.mimetype);
      return;
    }
    var document := ReadDocument(kind, file.content, svc);
    if document.None? {
      resp := ErrorResponse(500, "Could not extract content from the file.");
      return;
    }
    var parts := [Instructions(jobDescription)] + document.value;

    // 5. the model call
    sent := Some(parts);
    var reply := svc.generate(parts);
    match reply {
      case CallRaised =>
        resp := ErrorResponse(500, "Failed to get response from the AI model.");
      case Blocked =>
        resp := ErrorResponse(400, "Response was blocked due to safety filters.");
      case Answered(text) =>
        resp, record := Respond(text, userId, jobDescription, svc.parse);
    }
  }
}
