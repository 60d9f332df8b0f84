/** The template of the repository's formatting test, `<green>Test {1} <lang:test2:{2}> {0}`,
    as characters, and the pieces of the pattern it compiles to. */
module TestTemplate {
  import opened Chars

  const Raw := "<green>Test {1} <lang:test2:{2}> {0}"

  /** `raw` is the test's template, character by character. */
  predicate Shaped(raw: string) {
    |raw| == 36 && raw[0] == '<' && raw[1] == 'g' && raw[2] == 'r' && raw[3] == 'e' && raw[4] == 'e'
    && raw[5] == 'n' && raw[6] == '>' && raw[7] == 'T' && raw[8] == 'e' && raw[9] == 's' && raw[10] == 't'
    && raw[11] == ' ' && raw[12] == '{' && raw[13] == '1' && raw[14] == '}' && raw[15] == ' ' && raw[16] == '<'
    && raw[17] == 'l' && raw[18] == 'a' && raw[19] == 'n' && raw[20] == 'g' && raw[21] == ':' && raw[22] == 't'
    && raw[23] == 'e' && raw[24] == 's' && raw[25] == 't' && raw[26] == '2' && raw[27] == ':' && raw[28] == '{'
    && raw[29] == '2' && raw[30] == '}' && raw[31] == '>' && raw[32] == ' ' && raw[33] == '{' && raw[34] == '0'
    && raw[35] == '}'
  }

  /** Those characters spell the test's template and nothing else. */
  lemma ShapedIsRaw(raw: string)
    requires Shaped(raw)
    ensures raw == Raw
  {
  }

  /** `Raw` is that string: its characters, written out one by one, are the ones `Shaped`
      asks for. */
  lemma RawShaped()
    ensures Shaped(Raw)
  {
    var raw := ['<', 'g', 'r', 'e', 'e', 'n', '>', 'T', 'e', 's', 't', ' ', '{', '1', '}', ' ',
                '<', 'l', 'a', 'n', 'g', ':', 't', 'e', 's', 't', '2', ':', '{', '2', '}', '>',
                ' ', '{', '0', '}'];
    assert Shaped(raw);
    ShapedIsRaw(raw);
  }

  /** What the slot finder needs to know about the template: its only `{` are at 12, 28
      and 33, and each opens a one-digit slot. */
  predicate Slotted(raw: string) {
    && |raw| == 36
    && (forall o :: 0 <= o < |raw| && raw[o] == '{' ==> o == 12 || o == 28 || o == 33)
    && raw[12] == '{' && raw[13] == '1' && raw[14] == '}'
    && raw[28] == '{' && raw[29] == '2' && raw[30] == '}'
    && raw[33] == '{' && raw[34] == '0' && raw[35] == '}'
  }

  lemma ShapedSlotted(raw: string)
    requires Shaped(raw)
    ensures Slotted(raw)
  {
  }

  /** No `>` and no `:` from `j` up to `k`. */
  predicate Free(raw: string, j: nat, k: nat)
    requires j <= k <= |raw|
  {
    forall i :: j <= i < k ==> raw[i] != '>' && raw[i] != ':'
  }

  /** What the compiler's phases need to know about the template: where its tags, names
      and values begin and end. */
  predicate Layout(raw: string) {
    && |raw| == 36
    && raw[0] == '<' && Free(raw, 1, 6) && raw[6] == '>'
    && '<' !in raw[7..16]
    && raw[16] == '<' && Free(raw, 17, 21) && raw[21] == ':'
    && !IsQuote(raw[22]) && Free(raw, 22, 27) && raw[26] != '\'' && raw[27] == ':'
    && !IsQuote(raw[28]) && Free(raw, 28, 31) && raw[30] != '\'' && raw[31] == '>'
    && '<' !in raw[32..36]
  }

  lemma ShapedLayout(raw: string)
    requires Shaped(raw)
    ensures Layout(raw)
  {
  }

  /** The output the phases assemble. */
  function Traced(raw: string): string
    requires |raw| == 36
  {
    raw[0..7] + raw[7..16] + raw[16..22] + ['\''] + raw[22..27] + ['\''] + [raw[27]]
    + ['\''] + raw[28..31] + ['\''] + [raw[31]] + raw[32..36]
  }

  /** The assembled output is the test's template with a `'` on both sides of each value. */
  lemma Assembled(raw: string)
    requires Shaped(raw)
    ensures Traced(raw) == "<green>Test {1} <lang:" + "'test2':'{2}'> {0}"
  {
    Front(raw);
    Back(raw);
    assert Traced(raw) == (raw[0..7] + raw[7..16] + raw[16..22])
      + (['\''] + raw[22..27] + ['\''] + [raw[27]] + ['\''] + raw[28..31] + ['\''] + [raw[31]] + raw[32..36]);
  }

  /** Everything up to the `lang` tag's first value is copied. */
  lemma Front(raw: string)
    requires Shaped(raw)
    ensures raw[0..7] + raw[7..16] + raw[16..22] == "<green>Test {1} <lang:"
  {
  }

  /** The two values are quoted and the rest is copied. */
  lemma Back(raw: string)
    requires Shaped(raw)
    ensures ['\''] + raw[22..27] + ['\''] + [raw[27]] + ['\''] + raw[28..31] + ['\''] + [raw[31]] + raw[32..36]
            == "'test2':'{2}'> {0}"
  {
  }

  lemma Halves()
    ensures "<green>Test {1} <lang:" + "'test2':'{2}'> {0}" == "<green>Test {1} <lang:'test2':'{2}'> {0}"
  {
  }
}

/** The template of the repository's formatting test traced through the compiler: the
    value arguments `test2` and `{2}` of the `lang` tag are quoted and the three slots
    target arguments 1, 2 and 0. */
module Template {
  import opened Chars
  import opened Compiler
  import opened Slots
  import opened Scanning
  import opened Formats
  import opened TestTemplate

  /** The scan in its phases: the plain tag `<green>`, the text `Test {1} `, the name of
      `<lang:`, its two values `test2` and `{2}` (each gets a `'` on both sides), and the
      text ` {0}`. Four quotes are inserted and the last tag is closed. */
  lemma ThroughAll(raw: string)
    requires Layout(raw)
    ensures Reached(raw, 36, Traced(raw), 4, TagMachine(false, -1, '\''))
  {
    var closed := TagMachine(false, -1, '\'');
    ReachedStart(raw);
    ReachedTagName(raw, 0, 6, [], 0, '\'');
    var out := raw[0..7];
    ReachedOutside(raw, 7, 16, out, 0, closed);
    out := out + raw[7..16];
    ReachedTagName(raw, 16, 21, out, 0, '\'');
    out := out + raw[16..22];
    ReachedUnquotedValue(raw, 21, 27, out, 0, '\'');
    out := out + ['\''] + raw[22..27] + ['\''] + [raw[27]];
    ReachedUnquotedValue(raw, 27, 31, out, 2, '\'');
    out := out + ['\''] + raw[28..31] + ['\''] + [raw[31]];
    ReachedOutside(raw, 32, 36, out, 4, closed);
  }

  /** A `{digits}` occurrence of the template is one of its three one-digit slots. */
  lemma OneOfThree(raw: string, sp: Span)
    requires Slotted(raw)
    requires sp.open < sp.close < |raw| && raw[sp.open] == '{' && raw[sp.close] == '}'
    requires AllDigits(raw[sp.open + 1..sp.close])
    ensures sp == Span(12, 14) || sp == Span(28, 30) || sp == Span(33, 35)
  {
  }

  /** Every reference occurrence of the template is one of the three. */
  lemma OccurrencesAmong(raw: string)
    requires Slotted(raw)
    ensures forall n :: 0 <= n < |RawSlots(raw, |raw|)| ==>
      RawSlots(raw, |raw|)[n] == Span(12, 14) || RawSlots(raw, |raw|)[n] == Span(28, 30) || RawSlots(raw, |raw|)[n] == Span(33, 35)
  {
    var spans := RawSlots(raw, |raw|);
    forall n | 0 <= n < |spans|
      ensures spans[n] == Span(12, 14) || spans[n] == Span(28, 30) || spans[n] == Span(33, 35)
    {
      RawSlotsSpec(raw, |raw|, spans[n]);
      OneOfThree(raw, spans[n]);
    }
  }

  /** Each of the three is a reference occurrence. */
  lemma OccurrencesHave(raw: string)
    requires Slotted(raw)
    ensures Span(12, 14) in RawSlots(raw, |raw|) && Span(28, 30) in RawSlots(raw, |raw|) && Span(33, 35) in RawSlots(raw, |raw|)
  {
    assert raw[13..14] == [raw[13]] && raw[29..30] == [raw[29]] && raw[34..35] == [raw[34]];
    RawSlotsSpec(raw, |raw|, Span(12, 14));
    RawSlotsSpec(raw, |raw|, Span(28, 30));
    RawSlotsSpec(raw, |raw|, Span(33, 35));
  }

  /** An ascending list of spans that holds the three and nothing else is the three in order. */
  lemma ExactlyThree(spans: seq<Span>)
    requires forall m, n :: 0 <= m < n < |spans| ==> spans[m].close < spans[n].open
    requires forall n :: 0 <= n < |spans| ==> spans[n] == Span(12, 14) || spans[n] == Span(28, 30) || spans[n] == Span(33, 35)
    requires Span(12, 14) in spans && Span(28, 30) in spans && Span(33, 35) in spans
    ensures spans == [Span(12, 14), Span(28, 30), Span(33, 35)]
  {
    var a :| 0 <= a < |spans| && spans[a] == Span(12, 14);
    var b :| 0 <= b < |spans| && spans[b] == Span(28, 30);
    var c :| 0 <= c < |spans| && spans[c] == Span(33, 35);
    assert a < b < c;
    assert a == 0 && spans[1] != spans[a];
    assert b == 1 && spans[2] != spans[b];
    assert c == 2;
    assert spans[|spans| - 1] in spans[..3];
  }

  /** The reference occurrences of the template are `{1}`, `{2}` and `{0}`, in this order. */
  lemma TemplateOccurrences(raw: string)
    requires Slotted(raw)
    ensures RawSlots(raw, |raw|) == [Span(12, 14), Span(28, 30), Span(33, 35)]
  {
    RawSlotsAscending(raw, |raw|);
    OccurrencesAmong(raw);
    OccurrencesHave(raw);
    ExactlyThree(RawSlots(raw, |raw|));
  }

  /** A one-digit slot whose text is `w` targets the digit. */
  lemma DigitTarget(text: string, a: Argument, w: string)
    requires WellPlaced(text, a) && Covers(text, a, w)
    requires |w| == 3 && IsDigit(w[1])
    ensures a.target == DigitValue(w[1])
  {
    SlotTextTarget(text, a, w);
    assert w[1..2] == [w[1]] && w[1..2][..0] == [];
  }

  /** The test's template compiles to `<green>Test {1} <lang:'test2':'{2}'> {0}`. Its
      three slots, in order, cover `{1}`, `{2}` and `{0}` and target arguments 1, 2 and 0,
      so the largest target is 2. */
  lemma CompileFormattingTest()
    ensures Compile(Raw).pattern == "<green>Test {1} <lang:'test2':'{2}'> {0}"
    ensures |Compile(Raw).arguments| == 3
    ensures Covers(Compile(Raw).pattern, Compile(Raw).arguments[0], "{1}")
    ensures Covers(Compile(Raw).pattern, Compile(Raw).arguments[1], "{2}")
    ensures Covers(Compile(Raw).pattern, Compile(Raw).arguments[2], "{0}")
    ensures Compile(Raw).arguments[0].target == 1
    ensures Compile(Raw).arguments[1].target == 2
    ensures Compile(Raw).arguments[2].target == 0
    ensures Compile(Raw).maxArgument == 2
  {
    RawShaped();
    ShapedLayout(Raw);
    ThroughAll(Raw);
    Assembled(Raw);
    Halves();
    ShapedSlotted(Raw);
    TemplateSlots(Raw);
  }

  /** Texts that match the template's three occurrences span `{1}`, `{2}` and `{0}`. */
  lemma MatchedTexts(out: string, args: seq<Argument>, raw: string)
    requires Slotted(raw)
    requires TextsMatch(out, args, raw, [Span(12, 14), Span(28, 30), Span(33, 35)])
    ensures |args| == 3
    ensures Covers(out, args[0], "{1}") && Covers(out, args[1], "{2}") && Covers(out, args[2], "{0}")
  {
    var spans := [Span(12, 14), Span(28, 30), Span(33, 35)];
    assert raw[12..15] == "{1}" && raw[28..31] == "{2}" && raw[33..36] == "{0}";
    TextsMatchAt(out, args, raw, spans, 0);
    TextsMatchAt(out, args, raw, spans, 1);
    TextsMatchAt(out, args, raw, spans, 2);
  }

  /** A valid format whose three slots span `{1}`, `{2}` and `{0}` targets 1, 2 and 0,
      and its largest target is 2. */
  lemma DigitTargets(f: Format)
    requires Valid(f) && |f.arguments| == 3
    requires Covers(f.pattern, f.arguments[0], "{1}")
    requires Covers(f.pattern, f.arguments[1], "{2}")
    requires Covers(f.pattern, f.arguments[2], "{0}")
    requires forall n :: 0 <= n < |f.arguments| ==> f.arguments[n].target <= f.maxArgument
    requires exists n :: 0 <= n < |f.arguments| && f.arguments[n].target == f.maxArgument
    ensures f.arguments[0].target == 1 && f.arguments[1].target == 2 && f.arguments[2].target == 0
    ensures f.maxArgument == 2
  {
    DigitTarget(f.pattern, f.arguments[0], "{1}");
    DigitTarget(f.pattern, f.arguments[1], "{2}");
    DigitTarget(f.pattern, f.arguments[2], "{0}");
  }

  /** The slot half of `CompileFormattingTest`: the compiled template's three slots, in
      order, span `{1}`, `{2}` and `{0}` and target 1, 2 and 0, so the largest target is 2. */
  lemma TemplateSlots(raw: string)
    requires Slotted(raw)
    ensures var f := Compile(raw);
      && |f.arguments| == 3
      && Covers(f.pattern, f.arguments[0], "{1}") && f.arguments[0].target == 1
      && Covers(f.pattern, f.arguments[1], "{2}") && f.arguments[1].target == 2
      && Covers(f.pattern, f.arguments[2], "{0}") && f.arguments[2].target == 0
      && f.maxArgument == 2
  {
    var f := Compile(raw);
    TemplateOccurrences(raw);
    CompileFindsSlots(raw);
    MatchedTexts(f.pattern, f.arguments, raw);
    DigitTargets(f);
  }
}
