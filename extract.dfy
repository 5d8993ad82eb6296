/** The response extractor (`extract_json_from_string`, app.py:34-53): it picks, from the
    free-form reply of the language model, the text to hand to the JSON decoder. It tries a
    fenced block labelled `json` first and, if that is absent or does not decode, the span from
    the first `{` to the last `}`. Decoding errors never escape: they become `None`. */
module ResponseExtractor {
  import opened Wrappers
  import opened PyStr
  import opened JsonValue

  /** The label that opens a fenced JSON block. */
  const FenceLabel: string := "```json"

  /** The plain delimiter that closes a fenced block. */
  const Fence: string := "```"

  /** Strategy 1's text, present exactly when the reply contains the label: the stripped text
      from the end of the first label to the next fence after it. When no fence follows, the
      end index is -1, so the slice stops one character short of the end of the reply. */
  function FencedCandidate(text: string): (c: Option<string>)
    ensures c.Some? <==> Contains(text, FenceLabel)
    ensures c.Some? ==> Strip(c.value) == c.value
  {
    if !Contains(text, FenceLabel) then None
    else
      var start := Find(text, FenceLabel, 0) + |FenceLabel|;
      var end := Find(text, Fence, start);
      var candidate := Strip(Slice(text, start, end));
      StripIdempotent(Slice(text, start, end), IsPySpace);
      Some(candidate)
  }

  /** Strategy 2's text, present exactly when the reply has both a `{` and a `}`: the span from
      the first `{` to the last `}`, inclusive. It is empty when the first `{` comes after the
      last `}`, and otherwise starts with `{` and ends with `}`. */
  function BraceCandidate(text: string): (c: Option<string>)
    ensures c.Some? <==> '{' in text && '}' in text
    ensures c.Some? && c.value != [] ==> IsBraced(c.value)
  {
    var start := Find(text, "{", 0);
    var end := RFind(text, '}') + 1;
    ContainsChar(text, '{');
    OccursAtChar(text, '{', start);
    if start != -1 && end != 0 then Some(Slice(text, start, end)) else None
  }

  /** `extract_json_from_string`: whatever it returns is the decoding of one of the two
      candidates. */
  function ExtractJson(text: string, parse: Parser): (r: Option<Json>)
    ensures r.Some? ==>
      || (FencedCandidate(text).Some? && r == parse(FencedCandidate(text).value))
      || (BraceCandidate(text).Some? && r == parse(BraceCandidate(text).value))
  {
    var fenced := match FencedCandidate(text) case Some(c) => parse(c) case None => None;
    if fenced.Some? then fenced
    else match BraceCandidate(text) case Some(c) => parse(c) case None => None
  }

  /** The fenced text did not decode, or there is no fenced block. */
  predicate FenceFails(text: string, parse: Parser) {
    FencedCandidate(text).None? || parse(FencedCandidate(text).value).None?
  }

  // ---------------------------------------------------------------------------------------
  // Which candidate is decoded, and in which order

  /** When the fenced text decodes, its value is the result, whatever kind of value it is
      (an array or a scalar as much as an object); the brace span is not looked at. */
  lemma FencedParseWins(text: string, parse: Parser)
    requires !FenceFails(text, parse)
    ensures ExtractJson(text, parse) == parse(FencedCandidate(text).value)
  {
  }

  /** When the fenced text is absent or does not decode, the result is the decoding of the
      brace span, or nothing if there is no span. */
  lemma FallbackOnFenceFailure(text: string, parse: Parser)
    requires FenceFails(text, parse)
    ensures ExtractJson(text, parse) ==
      match BraceCandidate(text) case Some(c) => parse(c) case None => None
  {
  }

  /** Without a `{`, or without a `}`, only the fenced block can give a result. */
  lemma NoBracesNoResult(text: string, parse: Parser)
    requires FenceFails(text, parse)
    requires '{' !in text || '}' !in text
    ensures ExtractJson(text, parse) == None
  {
  }

  /** When every `}` of the reply comes before every `{`, the brace span is empty, the decoder
      rejects it, and (the fenced block having failed) the result is nothing. */
  lemma InvertedBracesNoResult(text: string, parse: Parser)
    requires RejectsEmpty(parse) && FenceFails(text, parse)
    requires forall i, j :: 0 <= i < |text| && 0 <= j < |text| && text[i] == '}' && text[j] == '{' ==> i < j
    ensures ExtractJson(text, parse) == None
  {
    if '{' in text && '}' in text {
      var start := Find(text, "{", 0);
      var last := RFind(text, '}');
      ContainsChar(text, '{');
      OccursAtChar(text, '{', start);
      assert last < start;
      assert BraceCandidate(text) == Some([]);
    }
  }

  // ---------------------------------------------------------------------------------------
  // The brace span

  /** A brace-delimited piece with no `{` before it and no `}` after it is the brace span. */
  lemma {:induction false} BraceSpanOf(a: string, c: string, b: string)
    requires '{' !in a && '}' !in b && IsBraced(c)
    ensures BraceCandidate(a + c + b) == Some(c)
  {
    var text := a + c + b;
    assert text[|a|] == '{';
    assert text[|a| + |c| - 1] == '}';
    forall j | 0 <= j < |a| ensures !OccursAt(text, "{", j) {
      OccursAtChar(text, '{', j);
      assert text[j] == a[j];
    }
    OccursAtChar(text, '{', |a|);
    FindIsFirst(text, "{", 0, |a|);
    assert forall j :: |a| + |c| <= j < |text| ==> text[j] == b[j - |a| - |c|];
    assert RFind(text, '}') == |a| + |c| - 1;
    assert text[|a|..|a| + |c|] == c;
  }

  /** Conversely, a non-empty brace span cuts the reply into a part `a` without `{`, the span,
      and a part `b` without `}`. */
  lemma BraceSpanSplits(text: string) returns (a: string, b: string)
    requires BraceCandidate(text).Some? && BraceCandidate(text).value != []
    ensures text == a + BraceCandidate(text).value + b
    ensures '{' !in a && '}' !in b
  {
    var c := BraceCandidate(text).value;
    var start := Find(text, "{", 0);
    var end := RFind(text, '}') + 1;
    assert 0 <= start < end <= |text| && c == text[start..end] by {
      ContainsChar(text, '{');
    }
    a, b := text[..start], text[end..];
    assert text == a + c + b by {
      assert text == text[..start] + text[start..end] + text[end..];
    }
    assert '{' !in a by {
      forall j | 0 <= j < start ensures text[j] != '{' {
        OccursAtChar(text, '{', j);
      }
      NotInPrefix(text, start, '{');
    }
    NotInSuffix(text, end, '}');
  }

  // ---------------------------------------------------------------------------------------
  // The fenced block

  /** Where the label first occurs at `k` and the first fence after it at `e`, the fenced text
      is what lies between the two, stripped. */
  lemma FencedCandidateAt(text: string, k: nat, e: int, body: string)
    requires Find(text, FenceLabel, 0) == k
    requires Find(text, Fence, k + |FenceLabel|) == e
    requires Slice(text, k + |FenceLabel|, e) == body
    ensures FencedCandidate(text) == Some(Strip(body))
  {
  }

  /** The reply is `pre`, the label, `body`, a fence and `post`, where the label first occurs
      right after `pre` and the first fence after the label is the one that follows `body`;
      the fenced text is then `body`, stripped. */
  lemma FencedCandidateOfBlock(pre: string, body: string, post: string)
    requires !Contains(pre + FenceLabel[..6], FenceLabel)
    requires !Contains(body + Fence[..2], Fence)
    ensures FencedCandidate(pre + FenceLabel + body + Fence + post) == Some(Strip(body))
  {
    var text := pre + FenceLabel + body + Fence + post;
    LabelOpensBlock(pre, body, post);
    FenceClosesBlock(pre + FenceLabel, body, post);
    BodyOfBlock(pre + FenceLabel, body, Fence + post);
    FencedCandidateAt(text, |pre|, |pre| + |FenceLabel| + |body|, body);
  }

  /** The label first occurs right after `pre`. */
  lemma LabelOpensBlock(pre: string, body: string, post: string)
    requires !Contains(pre + FenceLabel[..6], FenceLabel)
    ensures Find(pre + FenceLabel + body + Fence + post, FenceLabel, 0) == |pre|
  {
    assert pre + FenceLabel + body + Fence + post == pre + FenceLabel + (body + Fence + post);
    FindFirstAfter(pre, FenceLabel, body + Fence + post);
  }

  /** The first fence after `head` is the one that follows `body`. */
  lemma FenceClosesBlock(head: string, body: string, post: string)
    requires !Contains(body + Fence[..2], Fence)
    ensures Find(head + body + Fence + post, Fence, |head|) == |head| + |body|
  {
    assert head + body + Fence + post == head + (body + Fence + post);
    FindFirstAfter(body, Fence, post);
    FindAfterPrefix(head, body + Fence + post, Fence, 0);
  }

  /** The slice between `head` and `tail` is `body`. */
  lemma BodyOfBlock(head: string, body: string, tail: string)
    ensures Slice(head + body + tail, |head|, |head| + |body|) == body
  {
    assert (head + body + tail)[|head|..|head| + |body|] == body;
  }

  /** A body between fence markers that decodes is the result, whatever prose surrounds the
      block. */
  lemma ExtractFencedBlock(pre: string, body: string, post: string, parse: Parser)
    requires !Contains(pre + FenceLabel[..6], FenceLabel)
    requires !Contains(body + Fence[..2], Fence)
    requires parse(Strip(body)).Some?
    ensures ExtractJson(pre + FenceLabel + body + Fence + post, parse) == parse(Strip(body))
  {
    FencedCandidateOfBlock(pre, body, post);
  }

  /** An empty or whitespace-only fenced block strips to the empty text, which does not
      decode, so the extractor falls back to the brace span. */
  lemma WhitespaceFenceFails(pre: string, body: string, post: string, parse: Parser)
    requires !Contains(pre + FenceLabel[..6], FenceLabel)
    requires !Contains(body + Fence[..2], Fence)
    requires AllOf(body, IsPySpace) && RejectsEmpty(parse)
    ensures FenceFails(pre + FenceLabel + body + Fence + post, parse)
  {
    FencedCandidateOfBlock(pre, body, post);
  }

  /** A label with no fence after it: `find` gives -1, the slice ends one before the end, so
      the last character of the reply is not part of the fenced text. */
  lemma UnclosedFenceDropsLast(pre: string, body: string)
    requires !Contains(pre + FenceLabel[..6], FenceLabel)
    requires !Contains(body, Fence)
    ensures FencedCandidate(pre + FenceLabel + body) ==
      Some(Strip(if body == [] then [] else body[..|body| - 1]))
  {
    var head := pre + FenceLabel;
    var text := pre + FenceLabel + body;
    FindFirstAfter(pre, FenceLabel, body);
    FindAfterPrefix(head, body, Fence, 0);
    var expected := if body == [] then [] else body[..|body| - 1];
    assert Slice(text, |head|, -1) == expected;
  }

  /** With at most one character after the unclosed label, the fenced text is empty, does not
      decode, and the result is whatever the brace span gives. */
  lemma UnclosedShortFenceFallsBack(pre: string, body: string, parse: Parser)
    requires !Contains(pre + FenceLabel[..6], FenceLabel)
    requires !Contains(body, Fence) && |body| <= 1
    requires RejectsEmpty(parse)
    ensures FenceFails(pre + FenceLabel + body, parse)
  {
    UnclosedFenceDropsLast(pre, body);
    assert (if body == [] then [] else body[..|body| - 1]) == [];
    StripEmptyIffAllSpace([], IsPySpace);
  }

  // ---------------------------------------------------------------------------------------
  // Replies without a fenced block

  /** Prose around an object: with no label in the reply, the decoded text is exactly the
      brace-delimited piece between prose without `{` and prose without `}`. */
  lemma ExtractBetweenProse(a: string, c: string, b: string, parse: Parser)
    requires '{' !in a && '}' !in b && IsBraced(c)
    requires !Contains(a + c + b, FenceLabel)
    ensures ExtractJson(a + c + b, parse) == parse(c)
  {
    BraceSpanOf(a, c, b);
  }

  /** A reply that is itself a JSON object document, with nothing but JSON whitespace around
      it and no label inside it, is decoded whole by the fallback and returned as that
      object. */
  lemma BareObjectReturned(text: string, parse: Parser)
    requires IgnoresJsonSpace(parse) && ObjectsAreBraced(parse)
    requires !Contains(text, FenceLabel)
    requires parse(text).Some? && parse(text).value.JObject?
    ensures ExtractJson(text, parse) == parse(text)
  {
    var t := JsonTrim(text);
    assert IsBraced(t);
    var a, b := StripPieces(text, IsJsonSpace);
    SpaceHasNoBraces(a);
    SpaceHasNoBraces(b);
    BraceSpanOf(a, t, b);
    assert parse(text) == parse(t);
  }

  // ---------------------------------------------------------------------------------------
  // Concrete replies

  /** A text without a backquote holds neither the label nor a fence. */
  lemma NoBackquoteNoFence(s: string)
    requires '`' !in s
    ensures !Contains(s, Fence) && !Contains(s, FenceLabel)
  {
    ContainsIff(s, Fence);
    ContainsIff(s, FenceLabel);
    forall i | 0 <= i && i + 3 <= |s| ensures !OccursAt(s, Fence, i) && !OccursAt(s, FenceLabel, i) {
      assert s[i] != '`';
      assert Fence[0] == '`' && FenceLabel[0] == '`';
    }
  }

  /** A body without a backquote cannot start a fence before the one that closes it. */
  lemma NoBackquoteBody(body: string)
    requires '`' !in body
    ensures !Contains(body + Fence[..2], Fence)
  {
    var s := body + Fence[..2];
    ContainsIff(s, Fence);
    forall i | 0 <= i && i + 3 <= |s| ensures !OccursAt(s, Fence, i) {
      assert s[i..i + 3][0] == s[i] == body[i];
    }
  }

  /** An object alone in a fenced block, on its own line, is the fenced text. */
  lemma FencedObjectReply(obj: string)
    requires IsBraced(obj) && '`' !in obj
    ensures FencedCandidate("```json\n" + obj + "\n```") == Some(obj)
  {
    var body := "\n" + obj + "\n";
    assert [] + FenceLabel + body + Fence + [] == "```json\n" + obj + "\n```";
    StripUnique("\n", obj, "\n", IsPySpace);
    assert '`' !in body;
    NoBackquoteBody(body);
    FencedCandidateOfBlock([], body, []);
  }

  /** An object between two pieces of prose is what the fallback decodes: the reply
      "Here is the result: {"score": 80} Thanks!" gives the decoding of its object. */
  lemma ObjectInProseReply(prose: string, obj: string, tail: string, parse: Parser)
    requires prose == "Here is the result: " && obj == "{\"score\": 80}" && tail == " Thanks!"
    ensures ExtractJson(prose + obj + tail, parse) == parse(obj)
  {
    assert '`' !in prose + obj + tail by {
      assert '`' !in prose && '`' !in obj && '`' !in tail;
    }
    NoBackquoteNoFence(prose + obj + tail);
    ExtractBetweenProse(prose, obj, tail, parse);
  }

  /** A reply with no braces and no fence gives nothing. */
  lemma ProseOnlyReply(text: string, parse: Parser)
    requires text == "No JSON here at all."
    ensures ExtractJson(text, parse) == None
  {
    NoBackquoteNoFence(text);
    NoBracesNoResult(text, parse);
  }

  /** The brace span of a fenced object followed by another object runs across the fence. */
  lemma {:induction false} SpanAcrossFence(bad: string, good: string)
    requires IsBraced(bad) && IsBraced(good)
    ensures BraceCandidate("```json\n" + bad + "\n``` " + good) == Some(bad + "\n``` " + good)
  {
    var opening, middle := "```json\n", "\n``` ";
    var span := bad + middle + good;
    assert span[0] == bad[0];
    assert span[|span| - 1] == good[|good| - 1];
    assert opening + span + [] == opening + bad + middle + good;
    assert '{' !in opening;
    BraceSpanOf(opening, span, []);
  }

  /** The known limit of the heuristic: when the fenced object `bad` does not decode and an
      object `good` follows the fence, the brace span runs from the `{` of `bad` to the `}`
      of `good`, so the fallback decodes `bad`, the closing fence and `good` together. */
  lemma FenceThenObjectReply(bad: string, good: string, parse: Parser)
    requires IsBraced(bad) && '`' !in bad && IsBraced(good)
    requires parse(bad) == None
    ensures ExtractJson("```json\n" + bad + "\n``` " + good, parse) == parse(bad + "\n``` " + good)
  {
    var body := "\n" + bad + "\n";
    assert [] + FenceLabel + body + Fence + (" " + good) == "```json\n" + bad + "\n``` " + good;
    StripUnique("\n", bad, "\n", IsPySpace);
    assert '`' !in body;
    NoBackquoteBody(body);
    FencedCandidateOfBlock([], body, " " + good);
    SpanAcrossFence(bad, good);
  }
}
