# Résumé optimizer backend: response extractor and request decisions

This project models the core of a small Flask service. The service takes an uploaded résumé (PDF, DOCX or image) and a job description. It sends them to a generative language model and returns the model's JSON verdict. For a signed-in user it also adds the verdict to a per-user history.

The core is `extract_json_from_string` (`app.py:34-53`). It gets the model's free-form reply and chooses which piece of text to hand to the JSON decoder. There are two strategies, tried in order:

1. **Fenced block.** If the reply contains "```json", take the text between the end of the first label and the next "```" after it, and strip it.
2. **Brace span.** Take the span from the first `{` to the last `}`, inclusive.

Decoding errors never escape the function. Around it, the request handler `optimize_resume` makes a few decisions, and these are modelled too:

- It rejects missing files, files with an empty name and unsupported media types.
- It reads the bearer token from the `Authorization` header.
- It builds the prompt from the document.
- It decides the HTTP response and whether to write a history record. The record stores the job description cut to 200 characters, followed by "...".

Files:

- `pystr.dfy` (module `PyStr`): the Python string operations the code uses, with Python's semantics. These are `find`, `rfind`, `in`, `startswith`, slicing with a negative end, `strip`, `split` and `join`. Lemmas cover the uniqueness and idempotence of stripping, the round trip `sep.join(s.split(sep)) == s`, and the fact that no piece of a split contains the separator.
- `json.dfy` (module `JsonValue`): the values `json.loads` returns and Python's truthiness of them.
  - The decoder itself is not modelled. Every operation that decodes takes it as a parameter `parse: string -> Option<Json>`, where `None` stands for a raised `JSONDecodeError`.
  - The decoder properties that the results depend on are predicates. A lemma requires a predicate only when it needs it:
    - `RejectsEmpty`: the empty text does not decode.
    - `IgnoresJsonSpace`: whitespace around a document, as RFC 8259 section 2 allows it, is skipped.
    - `ObjectsAreBraced`: a text that decodes to an object is `{...}` once that whitespace is gone.
- `extract.dfy` (module `ResponseExtractor`): the two candidate texts, the extractor, and lemmas about which candidate is decoded, in which order, and when the result is nothing. It also has worked example replies.
- `handler.dfy` (module `ResumeHandler`):
  - The handler is a method, `OptimizeResume`. It takes the handler's early returns in the source's order and reassigns the user id as the source does. The prompt list, which the source grows with `append`, is built as one sequence value. Reading the document and handling the answer are the methods `ReadDocument` and `Respond`.
  - Each of its results is tied to a pure decision function: `BearerToken`, `UserId`, `Classify`, `DocumentParts`, `Reply`, `MatchScore`, `StoredDescription` and `HistoryRecord`.
  - The outside services are the function-valued fields of `Services`: token verification, the PDF, DOCX and image readers, the model and the decoder.

Details of the code that the model keeps:

- In the fenced branch, whatever `json.loads` returns is returned at once, so the result may be an array or a scalar. If the fenced text is `null`, the result is Python `None`, and the brace span is never tried. `Some(JNull)` models that value. The handler treats it like a decoding failure.
- When no "```" follows the label, `find` returns -1. The slice `text[start:-1]` then leaves out the last character of the reply (`UnclosedFenceDropsLast`).
- The fallback does not check that the first `{` comes before the last `}`. When it does not, the slice is empty, and the empty text fails to decode (`InvertedBracesNoResult`).
- The handler tests truthiness. A failed decode, `null`, `{}`, `[]`, `""`, `0` and `false` all give the 500 "AI failed to return valid JSON." response.
- The match score is read with `.get` on the answer and on its `skill_matching` member. On a value that is not a dict, `.get` raises inside the `try` of the history write. So no record is written, but the answer is still returned (`MatchScore`, `HistoryRecord`).

Where the intent stated in the source and its code differ, the model follows the code:

- The docstring of `extract_json_from_string` (`app.py:35`) says it finds and extracts a JSON object. The code returns any decoded value from the fenced branch (`FencedParseWins`).
- The fallback slices from the first `{` to the last `}` without checking that the first comes before the last, and relies on the empty text failing to decode (`InvertedBracesNoResult`).

`ExtractJson` is a function, so calling it twice on the same reply gives the same result.

## Model

| member | source | states |
|---|---|---|
| `PyStr.Find` | app.py:37-38 | `str.find`: -1 or an index at or after the start where the needle occurs, with no occurrence before it |
| `PyStr.RFind` | app.py:47 | `str.rfind`: -1 or an index holding the character, with none after it |
| `PyStr.StartsWith` | app.py:70 | `s.startswith(p)` holds exactly when `s.find(p)` returns 0 |
| `PyStr.SliceBound` | app.py:39 | a bound inside the text is kept, a negative bound counts from the end, a bound past the end gives the length and a bound before the start gives 0 |
| `PyStr.Slice` | app.py:39 | `s[a:b]` holds the characters from bound `a` up to bound `b`, and is empty when `b` is not past `a` |
| `PyStr.IsPySpace` | app.py:39 | the characters `str.strip` removes include the JSON whitespace and never a brace or a backquote |
| `PyStr.Strip` | app.py:39 | `s.strip()` is empty exactly when the text is all whitespace, and otherwise neither starts nor ends with whitespace |
| `PyStr.StripBy` | app.py:39 | stripping gives the piece after the leading spaces, followed only by spaces, and neither starting nor ending with one |
| `PyStr.StripUnique` | app.py:39 | whatever spaces surround a piece with no space at its edges, stripping returns that piece |
| `PyStr.StripIdempotent` | app.py:39 | stripping twice is stripping once |
| `PyStr.StripEmptyIffAllSpace` | app.py:39 | stripping gives the empty text exactly when the text is all spaces |
| `PyStr.FindFirstAfter` | app.py:37-38 | when the needle neither occurs in nor starts inside a prefix, `find` returns the position right after that prefix |
| `PyStr.StripPieces` | app.py:39 | a text is its leading spaces, its stripped form and its trailing spaces |
| `PyStr.FindIsFirst` | app.py:37-38 | an occurrence with none before it, from the start, is what `find` returns |
| `PyStr.ContainsIff` | app.py:36 | `pat in s` holds exactly when `pat` occurs somewhere in `s` |
| `PyStr.ContainsChar` | app.py:46-48 | for a one-character needle, `find` succeeds exactly when the character is in the text |
| `PyStr.Split` | app.py:71 | `split` gives at least one piece, and at least two exactly when the separator occurs; the first piece ends at the first occurrence |
| `PyStr.Join` | app.py:102 | `sep.join(parts)` starts with the first part, followed by the separator when there are more parts |
| `PyStr.JoinAppend` | app.py:102-107 | joining one more part appends the separator (when parts come before it) and that part, for every separator including the empty one; with `Join`'s start this fixes the whole joined text |
| `PyStr.SplitJoin` | app.py:71 | joining the pieces of a split with the separator gives the text back |
| `PyStr.SplitPiecesFree` | app.py:71 | no piece of a split contains the separator |
| `JsonValue.Truthy` | app.py:151 | a decoded value is false exactly when it is `None`, `False`, zero, or an empty string, list or dict |
| `JsonValue.OutputTruthy` | app.py:137 | a truthy answer was decoded and is not `None`; a decoded dict is truthy exactly when it is not empty |
| `ResponseExtractor.FencedCandidate` | app.py:36-39 | the fenced text exists exactly when the reply contains the label, and it is already stripped |
| `ResponseExtractor.BraceCandidate` | app.py:46-49 | the brace span exists exactly when the reply has both a `{` and a `}`, and a non-empty span starts with `{` and ends with `}` |
| `ResponseExtractor.ExtractJson` | app.py:34-53 | every value returned is the decoding of the fenced text or of the brace span |
| `ResponseExtractor.FencedParseWins` | app.py:36-41 | when the fenced text decodes, its value is the result, whatever kind of value it is |
| `ResponseExtractor.FallbackOnFenceFailure` | app.py:40-53 | when the fenced text is absent or fails, the result is the decoding of the brace span, or nothing without a span |
| `ResponseExtractor.NoBracesNoResult` | app.py:46-53 | when the fence fails and the reply lacks a `{` or a `}`, the result is nothing |
| `ResponseExtractor.InvertedBracesNoResult` | app.py:46-52 | when the fence fails and every `}` comes before every `{`, the empty span fails to decode and the result is nothing |
| `ResponseExtractor.BraceSpanOf` | app.py:46-49 | a braced piece with no `{` before it and no `}` after it is the brace span |
| `ResponseExtractor.BraceSpanSplits` | app.py:46-49 | a non-empty brace span has no `{` before it and no `}` after it in the reply |
| `ResponseExtractor.FencedCandidateOfBlock` | app.py:36-39 | the fenced text is the stripped body between the first label and the first fence after it |
| `ResponseExtractor.ExtractFencedBlock` | app.py:36-41 | a body between fence markers that decodes is the result, whatever prose surrounds the block |
| `ResponseExtractor.WhitespaceFenceFails` | app.py:36-43 | an empty or whitespace-only fenced block strips to the empty text, fails to decode and sends the extractor to the fallback |
| `ResponseExtractor.UnclosedFenceDropsLast` | app.py:37-39 | with no closing fence, the fenced text is the rest of the reply without its last character |
| `ResponseExtractor.UnclosedShortFenceFallsBack` | app.py:37-43 | with at most one character after an unclosed label, the fenced text is empty and fails to decode |
| `ResponseExtractor.ExtractBetweenProse` | app.py:45-50 | an object between prose without `{` before it and without `}` after it is what gets decoded |
| `ResponseExtractor.BareObjectReturned` | app.py:45-50 | a reply that is itself a JSON object document, with no label inside, is returned as that object |
| `ResponseExtractor.NoBackquoteNoFence` | app.py:36-38 | a reply without a backquote has neither a label nor a fence |
| `ResponseExtractor.FencedObjectReply` | app.py:36-39 | an object alone in a fenced block is the fenced text |
| `ResponseExtractor.ObjectInProseReply` | app.py:45-50 | in "Here is the result: {...} Thanks!", the braced object is what gets decoded |
| `ResponseExtractor.ProseOnlyReply` | app.py:45-53 | a reply with neither braces nor fence gives nothing |
| `ResponseExtractor.SpanAcrossFence` | app.py:46-49 | after a fenced object, a following object makes the brace span run across the closing fence |
| `ResponseExtractor.FenceThenObjectReply` | app.py:36-53 | when a fenced object fails and an object follows the fence, the fallback decodes both together with the fence |
| `ResumeHandler.BearerToken` | app.py:69-71 | a token exists exactly when the header starts with "Bearer " |
| `ResumeHandler.BearerTokenSpan` | app.py:70-71 | the token is the text after the leading "Bearer ", up to the next "Bearer " or the end |
| `ResumeHandler.BearerTokenRoundTrip` | app.py:70-71 | "Bearer " + t gives token t exactly when t has no "Bearer ", and no token contains "Bearer " |
| `PyStr.FindAfterPrefix` | app.py:71 | searching past a prefix finds what searching the rest finds, shifted by the prefix's length |
| `ResumeHandler.UserId` | app.py:68-76 | with a bearer token the user id is what the verifier returns for it; without one there is no user id |
| `ResumeHandler.Classify` | app.py:100-116 | exactly the four accepted media types are accepted; JPEG and PNG are images; only `application/pdf` is a PDF |
| `ResumeHandler.DocumentParts` | app.py:100-113 | a PDF adds one text part, its page texts joined with no separator; a DOCX adds its paragraphs joined by newlines; an image adds the caption and then the image; nothing is added exactly when the reader raises |
| `ResumeHandler.SignedInUser` | app.py:68-76 | `if user_id` holds exactly when the header carries a bearer token and the verifier returns a non-empty uid for it |
| `ResumeHandler.ReadDocument` | app.py:99-120 | the reader the media type selects returns exactly the prompt parts `DocumentParts` describes, or nothing when it raises |
| `ResumeHandler.Respond` | app.py:133-155 | after an answer, the response is `Reply` of the decoded answer and the record is `HistoryRecord` of the user, the decoded answer and the job description |
| `ResumeHandler.Reply` | app.py:151-155 | the answer is returned with 200 exactly when it is truthy; otherwise the 500 "AI failed to return valid JSON." response |
| `ResumeHandler.StoredDescription` | app.py:143 | the stored description is at most the first 200 characters of the job description followed by "...", and equals the description plus "..." when that has at most 200 characters |
| `ResumeHandler.MatchScore` | app.py:144 | the score is read exactly when the answer is a dict whose `skill_matching`, if present, is a dict; it is the `score` member, or 0 when `skill_matching` or `score` is missing |
| `ResumeHandler.HistoryRecord` | app.py:137-149 | a record is written exactly when there is a user, the answer is truthy and its score can be read; it holds the uid, the cut description, the score and the answer |
| `ResumeHandler.RecordOnlyWithSuccess` | app.py:137-155 | a record is written only when the response is 200 and carries the recorded answer |
| `ResumeHandler.ObjectAnswerRecorded` | app.py:137-146 | a signed-in user's non-empty dict answer, whose `skill_matching` is a dict if present, is recorded |
| `ResumeHandler.OptimizeResume` | app.py:55-164 | no file part, an empty name, or an unsupported type each give a 400 before the model is called; a reader failure gives a 500; the prompt is the instructions followed by the document's parts; after the call the response and record follow `Reply` and `HistoryRecord` |

## Left out

- Flask routing, CORS, the waitress server and `app.run` (`app.py:30-32`, `app.py:166-169`): these are HTTP plumbing. The request is given as a value with its files, its form and its `Authorization` header. Header lookup is not case-insensitive in the model.
- Model configuration, the safety settings and the logging of the block reason (`app.py:25-28`, `app.py:124-129`, `app.py:158-159`): the model call is the `generate` service. It answers `CallRaised`, `Blocked` or `Answered(text)`.
- The text of the instructions in the prompt (`app.py:79-94`): the prompt part `Instructions(jd)` stands for that f-string with the job description spliced in.
- Firebase initialisation, token verification and the Firestore write (`app.py:17-19`, `app.py:73-74`, `app.py:140-146`): these are external services. The verifier is a service that returns an optional uid. The write is returned as the record the handler asks the store to add. The server timestamp and a failure of the store itself are not part of this model; the handler swallows such a failure anyway.
- The reading of PDF, DOCX and image files by PyMuPDF, python-docx and PIL (`app.py:101-113`): these are library I/O. They are services returning page texts, paragraphs, or whether the image opens.
- The internals of `json.loads`: only the three properties above are assumed, and only where stated. `NaN`, `Infinity` and the difference between JSON integers and floats are not modelled. A number is a `real`.
- Exceptions other than the ones the source catches on purpose, such as a `RecursionError` from deeply nested JSON, are not modelled.
- All `print` logging.
- Python strings that hold a lone surrogate code point: a Dafny `char` is a Unicode scalar value, so such strings are not modelled.
- `resume-optimizer/app.py` and the React front end are not part of this model: they are a forwarding endpoint and UI code.
