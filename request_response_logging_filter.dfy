/**
  The payload helpers of the request/response logging filter: how a body is
  shortened, pretty-printed when it is JSON, and indented line by line before it
  goes into the log record.
 */
module RequestResponseLoggingFilter {
  import opened Wrappers
  import opened JavaString

  /** Longest payload, in UTF-16 code units, that is logged in full. */
  const MAX_PAYLOAD_LENGTH: nat := 10000

  const TRUNCATED_MARKER: JString := Lit("... [TRUNCATED]")
  const EMPTY_BODY: JString := Lit("[EMPTY BODY]")
  /** What Java's string concatenation writes for a null reference. */
  const NULL_TEXT: JString := Lit("null")
  /** The prefix the filter puts in front of every logged body line. */
  const BODY_INDENT: JString := Lit("\U{2551}   ")
  const OPEN_BRACE: CodeUnit := 0x7B
  const OPEN_BRACKET: CodeUnit := 0x5B

  /**
    Jackson's readValue followed by writeValueAsString, as the filter's
    ObjectMapper does them: the re-serialised text, or None where either call
    throws.
   */
  type Reserializer = JString -> Option<JString>

  // ---------------------------------------------------------------------------
  // truncatePayload
  // ---------------------------------------------------------------------------

  /**
    A payload of at most MAX_PAYLOAD_LENGTH code units is kept as it is; a longer
    one is cut to its first MAX_PAYLOAD_LENGTH code units and marked. Either way
    the result is never longer than the limit plus the marker.
   */
  function TruncatePayload(payload: JString): (r: JString)
    ensures |r| <= MAX_PAYLOAD_LENGTH + |TRUNCATED_MARKER|
    ensures |payload| <= MAX_PAYLOAD_LENGTH ==> r == payload
    ensures |payload| > MAX_PAYLOAD_LENGTH ==>
      && |r| == MAX_PAYLOAD_LENGTH + |TRUNCATED_MARKER|
      && r[..MAX_PAYLOAD_LENGTH] == payload[..MAX_PAYLOAD_LENGTH]
      && r[MAX_PAYLOAD_LENGTH..] == TRUNCATED_MARKER
  {
    if |payload| > MAX_PAYLOAD_LENGTH then
      payload[..MAX_PAYLOAD_LENGTH] + TRUNCATED_MARKER
    else
      payload
  }

  /** Truncating an already truncated payload changes nothing. */
  lemma TruncatePayloadIdempotent(payload: JString)
    ensures TruncatePayload(TruncatePayload(payload)) == TruncatePayload(payload)
  {
    var once := TruncatePayload(payload);
    if |payload| > MAX_PAYLOAD_LENGTH {
      assert |once| > MAX_PAYLOAD_LENGTH;
      assert once[..MAX_PAYLOAD_LENGTH] + TRUNCATED_MARKER == once;
    }
  }

  // ---------------------------------------------------------------------------
  // formatPayload
  // ---------------------------------------------------------------------------

  /** The trimmed payload starts with `{` or `[`: worth handing to Jackson. */
  predicate LooksLikeJson(payload: JString) {
    var trimmed := Trim(payload);
    |trimmed| > 0 && (trimmed[0] == OPEN_BRACE || trimmed[0] == OPEN_BRACKET)
  }

  /**
    formatPayload: "[EMPTY BODY]" for a null or empty payload; Jackson's
    re-serialisation for a JSON-looking payload that it accepts; the truncated
    payload otherwise. So the formatted body is bounded by the truncation limit
    unless it is what Jackson made of a JSON-looking payload.
   */
  function FormatPayload(payload: Option<JString>, reserialize: Reserializer): (r: JString)
    ensures || |r| <= MAX_PAYLOAD_LENGTH + |TRUNCATED_MARKER|
            || (payload.Some? && LooksLikeJson(payload.value) && reserialize(payload.value) == Some(r))
  {
    if payload == None || |payload.value| == 0 then
      EMPTY_BODY
    else if LooksLikeJson(payload.value) && reserialize(payload.value).Some? then
      reserialize(payload.value).value
    else
      TruncatePayload(payload.value)
  }

  /** JSON detection looks only at the first code unit above U+0020. */
  lemma LooksLikeJsonIff(payload: JString)
    ensures LooksLikeJson(payload) <==>
      var k := LeadingBlanks(payload);
      k < |payload| && (payload[k] == OPEN_BRACE || payload[k] == OPEN_BRACKET)
  {
    var k := LeadingBlanks(payload);
    TrimSlice(payload);
    TrimEmptyIffBlank(payload);
    if k < |payload| {
      assert !IsBlank(payload) by {
        assert payload[k] > SPACE;
      }
    }
  }

  /** A null or empty payload is logged as "[EMPTY BODY]". */
  lemma FormatPayloadEmpty(payload: Option<JString>, reserialize: Reserializer)
    requires payload == None || payload == Some([])
    ensures FormatPayload(payload, reserialize) == EMPTY_BODY
  {
  }

  /** A payload that does not look like JSON is only truncated; Jackson is never consulted. */
  lemma FormatPayloadPlain(payload: JString, reserialize: Reserializer)
    requires |payload| > 0 && !LooksLikeJson(payload)
    ensures FormatPayload(Some(payload), reserialize) == TruncatePayload(payload)
    ensures forall other: Reserializer :: FormatPayload(Some(payload), other) == FormatPayload(Some(payload), reserialize)
  {
  }

  /**
    A JSON-looking payload is logged as Jackson re-serialises it, in full; when
    Jackson throws it falls back to the truncated payload.
   */
  lemma FormatPayloadJson(payload: JString, reserialize: Reserializer)
    requires LooksLikeJson(payload)
    ensures reserialize(payload).Some? ==> FormatPayload(Some(payload), reserialize) == reserialize(payload).value
    ensures reserialize(payload) == None ==> FormatPayload(Some(payload), reserialize) == TruncatePayload(payload)
  {
  }

  /**
    Whatever Jackson does, the formatted text is bounded unless Jackson's own
    output is used: it is "[EMPTY BODY]" or at most 10015 code units.
   */
  lemma FormatPayloadBounded(payload: Option<JString>, reserialize: Reserializer)
    requires payload == None || !LooksLikeJson(payload.value) || reserialize(payload.value) == None
    ensures |FormatPayload(payload, reserialize)| <= MAX_PAYLOAD_LENGTH + |TRUNCATED_MARKER|
  {
  }

  // ---------------------------------------------------------------------------
  // indentMultiLine
  // ---------------------------------------------------------------------------

  /** Each line behind the same prefix. */
  function PrefixEach(lines: seq<JString>, prefix: JString): (r: seq<JString>)
    ensures |r| == |lines|
  {
    seq(|lines|, i requires 0 <= i < |lines| => prefix + lines[i])
  }

  /**
    indentMultiLine: a null text, an empty one and "[EMPTY BODY]" get the prefix
    once, in front; any other text is split into lines, each line is prefixed,
    and the lines are joined with "\n". Either way the result opens with the prefix.
   */
  function IndentMultiLine(text: Option<JString>, prefix: JString): (r: JString)
    ensures prefix <= r
  {
    if text == None then
      prefix + NULL_TEXT
    else if |text.value| == 0 || text.value == EMPTY_BODY then
      prefix + text.value
    else
      var parts := PrefixEach(Lines(text.value), prefix);
      assert parts[0] == prefix + Lines(text.value)[0];
      var r := Join(parts, [LF]);
      assert r[..|prefix|] == parts[0][..|prefix|];
      r
  }

  /** The texts that are not split: the prefix goes in front once ("null" for a null text). */
  lemma IndentMultiLineVerbatim(text: Option<JString>, prefix: JString)
    requires text == None || text == Some([]) || text == Some(EMPTY_BODY)
    ensures IndentMultiLine(text, prefix) == prefix + (if text == None then NULL_TEXT else text.value)
  {
  }

  /**
    For any other text and a non-empty prefix without line terminators, the
    result has exactly the lines of the text, each behind the prefix, joined by
    "\n" (it holds no "\r") and with no terminator at the end. By JoinOfLines
    these facts determine the result.
   */
  lemma IndentMultiLineLines(text: JString, prefix: JString)
    requires |text| > 0 && text != EMPTY_BODY
    requires |prefix| > 0 && NoTerminator(prefix)
    ensures var r := IndentMultiLine(Some(text), prefix);
      && Lines(r) == PrefixEach(Lines(text), prefix)
      && |Lines(r)| == |Lines(text)|
      && NoCr(r)
      && |r| > 0 && !IsTerminator(r[|r| - 1])
  {
    var lines := Lines(text);
    var prefixed := PrefixEach(lines, prefix);
    LinesNoTerminator(text);
    forall k | 0 <= k < |prefixed| ensures NoTerminator(prefixed[k]) {
      assert prefixed[k] == prefix + lines[k];
      assert NoTerminator(lines[k]);
    }
    assert prefixed[|prefixed| - 1] != [] by {
      assert |prefixed[|prefixed| - 1]| >= |prefix|;
    }
    LinesOfJoin(prefixed);
    var r := Join(prefixed, [LF]);
    NoCrInJoin(prefixed, [LF]);
    JoinEndsWithLast(prefixed, [LF]);
    var last := prefixed[|prefixed| - 1];
    assert r[|r| - 1] == last[|last| - 1];
  }

  /**
    A body as the request and response records log it: the formatted payload
    behind BODY_INDENT, line by line, unless it is empty or "[EMPTY BODY]".
   */
  lemma LoggedBody(payload: Option<JString>, reserialize: Reserializer)
    ensures var formatted := FormatPayload(payload, reserialize);
      var logged := IndentMultiLine(Some(formatted), BODY_INDENT);
      && (formatted == [] || formatted == EMPTY_BODY ==> logged == BODY_INDENT + formatted)
      && (formatted != [] && formatted != EMPTY_BODY ==>
            && Lines(logged) == PrefixEach(Lines(formatted), BODY_INDENT)
            && NoCr(logged) && |logged| > 0 && !IsTerminator(logged[|logged| - 1]))
  {
    var formatted := FormatPayload(payload, reserialize);
    assert |BODY_INDENT| == 4 && NoTerminator(BODY_INDENT);
    if formatted != [] && formatted != EMPTY_BODY {
      IndentMultiLineLines(formatted, BODY_INDENT);
    }
  }

  /** "a\r\nb\n" behind "> " is logged as "> a\n> b": CR LF becomes LF, the final terminator goes. */
  lemma IndentExample(text: JString, prefix: JString)
    requires text == Lit("a\r\nb\n") && prefix == Lit("> ")
    ensures IndentMultiLine(Some(text), prefix) == Lit("> a\n> b")
  {
    assert text == [0x61, CR, LF, 0x62, LF];
    assert LineEnd(text, 0) == 1 by { assert LineEnd(text, 1) == 1; }
    assert NextLineStart(text, 1) == 3;
    var rest := text[3..];
    assert LineEnd(rest, 0) == 1 by { assert LineEnd(rest, 1) == 1; }
    assert rest[2..] == [];
    assert Lines(rest) == [rest[..1]];
    assert Lines(text) == [text[..1]] + Lines(rest);
    assert text[..1] == [0x61] && rest[..1] == [0x62];
    assert Lines(text) == [[0x61], [0x62]];
    assert text != EMPTY_BODY by { assert |EMPTY_BODY| == 12; }
    var prefixed := PrefixEach([[0x61], [0x62]], prefix);
    assert prefixed == [prefix + [0x61], prefix + [0x62]];
    assert Join(prefixed, [LF]) == prefix + [0x61] + [LF] + (prefix + [0x62]);
    assert prefix == [0x3E, 0x20];
    assert Lit("> a\n> b") == [0x3E, 0x20, 0x61, LF, 0x3E, 0x20, 0x62];
  }
}
