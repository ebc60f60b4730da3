/**
 `cleanJsonResponse` of the LLM helper: removes a Markdown code fence around a
 model reply before it is parsed as JSON. The two regular expressions are
 anchored without the multiline flag, so `^` is index 0 and `$` is the end of
 the whole text.
 */
module JsonClean {
  import opened JsText

  const JsonFence: string := "```json\n"
  const PlainFence: string := "```\n"
  const CloseFence: string := "\n```"

  predicate StartsWith(s: string, p: string) {
    |p| <= |s| && s[..|p|] == p
  }

  predicate EndsWith(s: string, p: string) {
    |p| <= |s| && s[|s| - |p|..] == p
  }

  /** `replace(/^```(?:json)?\n/, '')`: the optional group is tried first, so
      "```json\n" wins over "```\n"; nothing happens unless one starts the text. */
  function StripOpenFence(s: string): (r: string)
    ensures StartsWith(s, JsonFence) ==> s == JsonFence + r
    ensures !StartsWith(s, JsonFence) && StartsWith(s, PlainFence) ==> s == PlainFence + r
    ensures !StartsWith(s, JsonFence) && !StartsWith(s, PlainFence) ==> r == s
  {
    if StartsWith(s, JsonFence) then s[|JsonFence|..]
    else if StartsWith(s, PlainFence) then s[|PlainFence|..]
    else s
  }

  /** `replace(/\n```$/, '')`: one closing fence at the very end. */
  function StripCloseFence(s: string): (r: string)
    ensures EndsWith(s, CloseFence) ==> s == r + CloseFence
    ensures !EndsWith(s, CloseFence) ==> r == s
  {
    if EndsWith(s, CloseFence) then s[..|s| - |CloseFence|] else s
  }

  /** The fences are stripped in this order, then the rest is trimmed. */
  function CleanJsonResponse(text: string): (r: string)
    ensures Trimmed(r)
    ensures |r| <= |text|
  {
    Trim(StripCloseFence(StripOpenFence(text)))
  }

  /** Text without either fence is only trimmed. */
  lemma FenceFreeIsTrimmed(text: string)
    requires !StartsWith(text, JsonFence) && !StartsWith(text, PlainFence)
    requires !EndsWith(text, CloseFence)
    ensures CleanJsonResponse(text) == Trim(text)
  {
  }

  /** A body wrapped in either opening fence and the closing fence comes back
      trimmed, whatever the body holds. */
  lemma UnwrapFenced(body: string, json: bool)
    ensures CleanJsonResponse((if json then JsonFence else PlainFence) + body + CloseFence) == Trim(body)
  {
    var open := if json then JsonFence else PlainFence;
    var text := open + body + CloseFence;
    assert text[..|open|] == open;
    if !json {
      assert text[3] == '\n' != JsonFence[3];
    }
    var rest := StripOpenFence(text);
    assert rest == body + CloseFence by {
      assert text == open + (body + CloseFence);
    }
    assert rest[|rest| - |CloseFence|..] == CloseFence;
    assert StripCloseFence(rest) == body;
  }

  /** A reply of the form the helper asks the model to avoid. */
  lemma JsonFencedObject()
    ensures CleanJsonResponse("```json\n{}\n```") == "{}"
  {
    var text := "```json\n{}\n```";
    assert text[..8] == JsonFence;
    var rest := text[8..];
    assert rest == "{}\n```";
    assert StripOpenFence(text) == rest;
    assert rest[|rest| - 4..] == CloseFence;
    assert StripCloseFence(rest) == "{}";
    TrimKeepsTrimmed("{}");
  }

  /** An opening fence after leading whitespace is not at index 0, so it
      survives; the later `trim` then exposes it. */
  lemma IndentedFenceSurvives()
    ensures CleanJsonResponse(" ```\n{}") == "```\n{}"
  {
    var text := " ```\n{}";
    var rest := text[1..];
    assert rest == "```\n{}";
    assert !StartsWith(text, JsonFence) by { assert text[0] != JsonFence[0]; }
    assert !StartsWith(text, PlainFence) by { assert text[0] != PlainFence[0]; }
    assert !EndsWith(text, CloseFence) by { assert text[|text| - 1] != CloseFence[3]; }
    assert StripCloseFence(StripOpenFence(text)) == text;
    assert IsJsSpace(text[0]) && !IsJsSpace(rest[0]) && !IsJsSpace(rest[|rest| - 1]);
    assert TrimStart(rest) == rest;
    assert TrimStart(text) == rest;
    TrimKeepsTrimmed(rest);
  }

  /** Only one closing fence is removed. */
  lemma OneCloseFenceOnly()
    ensures CleanJsonResponse("{}\n```\n```") == "{}\n```"
  {
    var text := "{}\n```\n```";
    assert !StartsWith(text, JsonFence) by { assert text[0] != JsonFence[0]; }
    assert !StartsWith(text, PlainFence) by { assert text[0] != PlainFence[0]; }
    assert text[|text| - 4..] == CloseFence;
    var rest := text[..|text| - 4];
    assert rest == "{}\n```";
    assert StripCloseFence(text) == rest;
    TrimKeepsTrimmed(rest);
  }

  /** Only one opening fence is removed: a second one right after the first stays. */
  lemma OneOpenFenceOnly()
    ensures CleanJsonResponse("```\n```\n{}") == "```\n{}"
  {
    var text := "```\n```\n{}";
    assert !StartsWith(text, JsonFence) by { assert text[3] != JsonFence[3]; }
    assert text[..4] == PlainFence;
    var rest := text[4..];
    assert rest == "```\n{}";
    assert StripOpenFence(text) == rest;
    assert !EndsWith(rest, CloseFence) by { assert rest[|rest| - 1] != CloseFence[3]; }
    TrimKeepsTrimmed(rest);
  }
}
