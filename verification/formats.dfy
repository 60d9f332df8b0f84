/** The compiled template (the source's `Format` class): the compiler's result and the
    substitution `format(String...)` performs on it. */
module Formats {
  import opened Chars
  import opened Compiler
  import opened Slots
  import opened Scanning

  /** A compiled template: the quoted text, its argument slots in order, and the largest
      slot target (-1 when there are none). */
  datatype Format = Format(pattern: string, arguments: seq<Argument>, maxArgument: int)

  /** What every compiled template satisfies: each slot covers `{digits}` of the pattern,
      and the slots are ascending and do not overlap. */
  predicate Valid(f: Format) {
    && (forall n :: 0 <= n < |f.arguments| ==> WellPlaced(f.pattern, f.arguments[n]))
    && Ascending(f.arguments)
  }

  /** The largest target among the slots, or -1 for none (`max().orElse(-1)`). */
  function MaxTarget(args: seq<Argument>): (r: int)
    ensures r == -1 <==> args == []
    ensures forall n :: 0 <= n < |args| ==> args[n].target <= r
    ensures args != [] ==> exists n :: 0 <= n < |args| && args[n].target == r
    decreases |args|
  {
    if args == [] then -1
    else
      var rest := MaxTarget(args[..|args| - 1]);
      var last := args[|args| - 1].target;
      if rest < last then last else rest
  }

  /** The constructor `Format(String)`: one compiling pass over `raw`. */
  function Compile(raw: string): (f: Format)
    ensures Valid(f) && Laid(f.pattern, f.arguments)
    ensures AutoNumbered(f.arguments)
    ensures f.maxArgument == -1 <==> f.arguments == []
    ensures forall n :: 0 <= n < |f.arguments| ==> f.arguments[n].target <= f.maxArgument
    ensures f.arguments != [] ==> exists n :: 0 <= n < |f.arguments| && f.arguments[n].target == f.maxArgument
  {
    var s := Scan(raw, |raw|);
    ScanSlotsPlaced(raw, |raw|);
    Format(s.out, s.slot.args, MaxTarget(s.slot.args))
  }

  /** Removing the quotes the compiler inserted gives back the raw template: every input
      character is copied once and in order, and everything else is a quote. */
  lemma CompileKeepsInput(raw: string)
    ensures exists copied: seq<bool> ::
      && |copied| == |Compile(raw).pattern|
      && Keep(Compile(raw).pattern, copied) == raw
      && (forall p :: 0 <= p < |copied| && !copied[p] ==> IsQuote(Compile(raw).pattern[p]))
  {
    ScanKeeps(raw, |raw|);
    var s := Scan(raw, |raw|);
    assert raw[..|raw|] == raw;
    assert |s.copied| == |s.out| && Keep(s.out, s.copied) == raw;
  }

  /** A template without `<` has no tags, so it compiles to itself. */
  lemma CompileWithoutTags(raw: string)
    requires '<' !in raw
    ensures Compile(raw).pattern == raw
  {
    assert raw[..|raw|] == raw;
    ScanWithoutTags(raw, |raw|);
  }

  /** The slots are exactly the `{digits}` occurrences of the raw template, in order: the
      n-th slot's compiled text is the n-th occurrence's text. */
  lemma CompileFindsSlots(raw: string)
    ensures TextsMatch(Compile(raw).pattern, Compile(raw).arguments, raw, RawSlots(raw, |raw|))
  {
    ScanMatchesRaw(raw, |raw|);
  }

  /** Slot `a` spans exactly the text `w` of `text`. */
  predicate Covers(text: string, a: Argument, w: string) {
    a.start <= a.end <= |text| && text[a.start..a.end] == w
  }

  /** A well-placed slot whose text is `w` targets the number written inside `w`. */
  lemma SlotTextTarget(text: string, a: Argument, w: string)
    requires WellPlaced(text, a) && Covers(text, a, w)
    ensures |w| >= 2 && AllDigits(w[1..|w| - 1])
    ensures |w| > 2 ==> a.target == ParseNat(w[1..|w| - 1])
  {
    var inner := text[a.start + 1..a.end - 1];
    assert |w| == a.length;
    forall p | 0 <= p < |inner|
      ensures inner[p] == w[1..|w| - 1][p]
    {
      assert inner[p] == text[a.start + 1 + p] == w[1 + p];
    }
    assert inner == w[1..|w| - 1];
  }

  /** Given slots matched against the raw occurrences, the occurrence `{digits}` at `o..c`
      has a slot covering its text that targets its number. */
  lemma MatchedOccurrence(text: string, args: seq<Argument>, raw: string, o: nat, c: nat) returns (n: nat)
    requires TextsMatch(text, args, raw, RawSlots(raw, |raw|))
    requires forall n :: 0 <= n < |args| ==> WellPlaced(text, args[n])
    requires o < c < |raw| && raw[o] == '{' && raw[c] == '}' && AllDigits(raw[o + 1..c])
    ensures n < |args| && Covers(text, args[n], raw[o..c + 1])
    ensures c > o + 1 ==> args[n].target == ParseNat(raw[o + 1..c])
  {
    n := OccurrenceIndex(raw, o, c);
    Inside(raw, o, c);
    SlotTextTarget(text, args[n], raw[o..c + 1]);
  }

  /** The position of the occurrence `o..c` among the raw slots. */
  lemma OccurrenceIndex(raw: string, o: nat, c: nat) returns (n: nat)
    requires o < c < |raw| && raw[o] == '{' && raw[c] == '}' && AllDigits(raw[o + 1..c])
    ensures n < |RawSlots(raw, |raw|)| && RawSlots(raw, |raw|)[n] == Span(o, c)
  {
    RawSlotsSpec(raw, |raw|, Span(o, c));
    n :| 0 <= n < |RawSlots(raw, |raw|)| && RawSlots(raw, |raw|)[n] == Span(o, c);
  }

  /** The inside of the text from `o` to `c` is what lies strictly between them. */
  lemma Inside(s: string, o: nat, c: nat)
    requires o < c < |s|
    ensures var w := s[o..c + 1]; |w| == c + 1 - o && w[1..|w| - 1] == s[o + 1..c]
  {
    var w := s[o..c + 1];
    var inner, between := w[1..|w| - 1], s[o + 1..c];
    forall p | 0 <= p < |inner|
      ensures inner[p] == between[p]
    {
      assert inner[p] == w[p + 1] == s[o + 1 + p];
    }
  }

  /** Every `{digits}` in the raw template is a slot covering that text, and a numbered
      slot targets the number written in it. */
  lemma CompileSlotTargets(raw: string, o: nat, c: nat)
    requires o < c < |raw| && raw[o] == '{' && raw[c] == '}' && AllDigits(raw[o + 1..c])
    ensures exists n :: (0 <= n < |Compile(raw).arguments| && Covers(Compile(raw).pattern, Compile(raw).arguments[n], raw[o..c + 1])
      && (c > o + 1 ==> Compile(raw).arguments[n].target == ParseNat(raw[o + 1..c])))
  {
    var f := Compile(raw);
    CompileFindsSlots(raw);
    var n := MatchedOccurrence(f.pattern, f.arguments, raw, o, c);
  }

  /** Each slot's compiled text is a `{digits}` occurrence of the raw template: the one
      whose braces are at `o` and `c`. */
  lemma CompileSlotsFromInput(raw: string, n: nat) returns (o: nat, c: nat)
    requires n < |Compile(raw).arguments|
    ensures o < c < |raw| && raw[o] == '{' && raw[c] == '}' && AllDigits(raw[o + 1..c])
    ensures Covers(Compile(raw).pattern, Compile(raw).arguments[n], raw[o..c + 1])
  {
    var f := Compile(raw);
    CompileFindsSlots(raw);
    o, c := MatchedSlot(f.pattern, f.arguments, raw, n);
  }

  /** Given slots matched against the raw occurrences, slot `n` covers the text of the
      occurrence whose braces are at `o` and `c`. */
  lemma MatchedSlot(text: string, args: seq<Argument>, raw: string, n: nat) returns (o: nat, c: nat)
    requires TextsMatch(text, args, raw, RawSlots(raw, |raw|)) && n < |args|
    ensures o < c < |raw| && raw[o] == '{' && raw[c] == '}' && AllDigits(raw[o + 1..c])
    ensures Covers(text, args[n], raw[o..c + 1])
  {
    var spans := RawSlots(raw, |raw|);
    TextsMatchAt(text, args, raw, spans, n);
    o, c := spans[n].open, spans[n].close;
    RawSlotsSpec(raw, |raw|, spans[n]);
  }

  /** The slots lie inside `text`, in ascending order, with widths matching their spans. */
  predicate Laid(text: string, slots: seq<Argument>) {
    && (forall n :: 0 <= n < |slots| ==>
          slots[n].start <= slots[n].end <= |text| && slots[n].length == slots[n].end - slots[n].start)
    && Ascending(slots)
  }

  /** Where the text after the first `i` slots resumes: the end of slot `i - 1`, or 0. */
  function Resume(slots: seq<Argument>, i: nat): nat
    requires i <= |slots|
  {
    if i == 0 then 0 else slots[i - 1].end
  }

  /** What slot `a` turns into: its argument when there is one, otherwise its own text. */
  function Filler(text: string, a: Argument, args: seq<string>): string
    requires a.start <= a.end <= |text|
  {
    if a.target < |args| then args[a.target] else text[a.start..a.end]
  }

  /** The substituted text up to the end of slot `i - 1`: each gap between slots copied,
      each slot replaced by its filler. */
  function Rendered(text: string, slots: seq<Argument>, args: seq<string>, i: nat): string
    requires Laid(text, slots) && i <= |slots|
    decreases i
  {
    if i == 0 then []
    else Rendered(text, slots, args, i - 1) + text[Resume(slots, i - 1)..slots[i - 1].start] + Filler(text, slots[i - 1], args)
  }

  /** The reference result of `format(String...)`: every slot replaced by its filler. */
  function Substituted(text: string, slots: seq<Argument>, args: seq<string>): string
    requires Laid(text, slots)
  {
    Running(text, slots, args, |slots|)
  }

  /** The text once the first `i` slots are substituted and the rest left as they are. */
  function Running(text: string, slots: seq<Argument>, args: seq<string>, i: nat): string
    requires Laid(text, slots) && i <= |slots|
  {
    Rendered(text, slots, args, i) + text[Resume(slots, i)..]
  }

  /** How far slot `i` has moved once the slots before it are substituted. */
  function Shift(text: string, slots: seq<Argument>, args: seq<string>, i: nat): int
    requires Laid(text, slots) && i <= |slots|
  {
    |Rendered(text, slots, args, i)| - Resume(slots, i)
  }

  /** The loop's running text and offset after the first `i` slots: the text with those
      slots substituted, and how far the later slots have moved. */
  predicate Runs(text: string, slots: seq<Argument>, args: seq<string>, i: nat, result: string, offset: int)
    requires Laid(text, slots) && i <= |slots|
  {
    result == Running(text, slots, args, i) && offset == Shift(text, slots, args, i)
  }

  /** One iteration of the substitution loop: slot `i` lies at its shifted position in the
      running text, and splicing its argument in there (or leaving the text alone when it
      has none) gives the running text and the offset after `i + 1` slots. */
  lemma SubstituteStep(text: string, slots: seq<Argument>, args: seq<string>, i: nat, result: string, offset: int)
    requires Laid(text, slots) && i < |slots| && Runs(text, slots, args, i, result, offset)
    ensures 0 <= slots[i].start + offset <= slots[i].end + offset <= |result|
    ensures var a := slots[i]; a.target < |args| ==>
      Runs(text, slots, args, i + 1, result[..a.start + offset] + args[a.target] + result[a.end + offset..],
           offset + |args[a.target]| - a.length)
    ensures slots[i].target >= |args| ==> Runs(text, slots, args, i + 1, result, offset)
  {
    var a, prefix := slots[i], Rendered(text, slots, args, i);
    var resume := Resume(slots, i);
    RenderedNext(text, slots, args, i);
    assert Resume(slots, i + 1) == a.end;
    var gap, span, rest, fill := text[resume..a.start], text[a.start..a.end], text[a.end..], Filler(text, a, args);
    ThreeCuts(text, resume, a.start, a.end);
    Splice(prefix, gap, span, rest, fill);
  }

  /** Cutting `span` out of `prefix + (gap + span + rest)` leaves `prefix + gap` before it
      and `rest` after it, so putting `fill` in its place gives `prefix + gap + fill + rest`. */
  lemma Splice(prefix: string, gap: string, span: string, rest: string, fill: string)
    ensures var result, at := prefix + (gap + span + rest), |prefix| + |gap|;
      && at + |span| <= |result|
      && result == prefix + gap + span + rest
      && result[..at] + fill + result[at + |span|..] == prefix + gap + fill + rest
  {
    var result, at := prefix + (gap + span + rest), |prefix| + |gap|;
    assert result[..at] == prefix + gap;
    assert result[at + |span|..] == rest;
  }

  /** A suffix cut at two further points. */
  lemma ThreeCuts(text: string, x: nat, y: nat, z: nat)
    requires x <= y <= z <= |text|
    ensures text[x..] == text[x..y] + text[y..z] + text[z..]
  {
  }

  /** `format(String...)`: substitute each slot whose target has an argument, keeping a
      running offset so later spans stay aligned with the growing text. */
  method FormatWith(f: Format, args: seq<string>) returns (result: string)
    requires Laid(f.pattern, f.arguments)
    ensures result == Substituted(f.pattern, f.arguments, args)
  {
    var text, slots := f.pattern, f.arguments;
    result := text;
    var offset: int := 0;
    for i := 0 to |slots|
      invariant Runs(text, slots, args, i, result, offset)
    {
      SubstituteStep(text, slots, args, i, result, offset);
      var a := slots[i];
      if a.target < |args| {
        var before := result[..a.start + offset];
        var after := result[a.end + offset..];
        var value := args[a.target];
        result := before + value + after;
        offset := offset + |value| - a.length;
      }
    }
  }

  /** The first `i` slots, rendered, reproduce the text up to where it resumes. */
  predicate Copied(text: string, slots: seq<Argument>, args: seq<string>, i: nat)
    requires Laid(text, slots) && i <= |slots|
  {
    Rendered(text, slots, args, i) == text[..Resume(slots, i)]
  }

  /** While no slot has an argument, the rendered prefix is the text itself. */
  lemma {:induction false} RenderedUntouched(text: string, slots: seq<Argument>, args: seq<string>, i: nat)
    requires Laid(text, slots) && i <= |slots|
    requires forall n :: 0 <= n < |slots| ==> slots[n].target >= |args|
    ensures Copied(text, slots, args, i)
    decreases i
  {
    if i > 0 {
      RenderedUntouched(text, slots, args, i - 1);
      UntouchedStep(text, slots, args, i);
    }
  }

  /** One step of the above: a slot without an argument extends the copied prefix. */
  lemma UntouchedStep(text: string, slots: seq<Argument>, args: seq<string>, i: nat)
    requires Laid(text, slots) && 0 < i <= |slots| && slots[i - 1].target >= |args|
    requires Copied(text, slots, args, i - 1)
    ensures Copied(text, slots, args, i)
  {
    RenderedLast(text, slots, args, i);
    var a := slots[i - 1];
    assert Filler(text, a, args) == text[a.start..a.end];
    UntouchedGlue(Rendered(text, slots, args, i - 1), Filler(text, a, args), text, Resume(slots, i - 1), a.start, a.end);
  }

  /** The same step, stated for the last of the first `i` slots. */
  lemma RenderedLast(text: string, slots: seq<Argument>, args: seq<string>, i: nat)
    requires Laid(text, slots) && 0 < i <= |slots|
    ensures Resume(slots, i - 1) <= slots[i - 1].start && Resume(slots, i) == slots[i - 1].end
    ensures Rendered(text, slots, args, i)
      == Rendered(text, slots, args, i - 1) + text[Resume(slots, i - 1)..slots[i - 1].start] + Filler(text, slots[i - 1], args)
  {
    if i > 1 {
      assert slots[i - 2].end <= slots[i - 1].start;
    }
  }

  /** A copied prefix, the copied gap and a copied slot make the longer copied prefix. */
  lemma UntouchedGlue(prev: string, fill: string, text: string, resume: nat, start: nat, end: nat)
    requires resume <= start <= end <= |text|
    requires prev == text[..resume] && fill == text[start..end]
    ensures prev + text[resume..start] + fill == text[..end]
  {
    assert text[..end] == text[..resume] + text[resume..start] + text[start..end];
  }

  /** With no slot satisfied, `format` returns the compiled text unchanged. */
  lemma SubstitutedUntouched(text: string, slots: seq<Argument>, args: seq<string>)
    requires Laid(text, slots)
    requires forall n :: 0 <= n < |slots| ==> slots[n].target >= |args|
    ensures Substituted(text, slots, args) == text
  {
    RenderedUntouched(text, slots, args, |slots|);
    var resume := Resume(slots, |slots|);
    assert text[..resume] + text[resume..] == text;
  }

  /** The first `i` slots rendered are a prefix of the first `j` slots rendered. */
  predicate Extends(text: string, slots: seq<Argument>, args: seq<string>, i: nat, j: nat)
    requires Laid(text, slots) && i <= j <= |slots|
  {
    var p, r := Rendered(text, slots, args, i), Rendered(text, slots, args, j);
    |p| <= |r| && r[..|p|] == p
  }

  /** A rendered prefix is a prefix of every longer one. */
  lemma {:induction false} RenderedGrows(text: string, slots: seq<Argument>, args: seq<string>, i: nat, j: nat)
    requires Laid(text, slots) && i <= j <= |slots|
    ensures Extends(text, slots, args, i, j)
    decreases j - i
  {
    if i < j {
      RenderedGrows(text, slots, args, i, j - 1);
      GrowsStep(text, slots, args, i, j);
    }
  }

  /** One step of the above: rendering one more slot only appends. */
  lemma GrowsStep(text: string, slots: seq<Argument>, args: seq<string>, i: nat, j: nat)
    requires Laid(text, slots) && i < j <= |slots|
    requires Extends(text, slots, args, i, j - 1)
    ensures Extends(text, slots, args, i, j)
  {
    RenderedLast(text, slots, args, j);
    var p, r := Rendered(text, slots, args, i), Rendered(text, slots, args, j - 1);
    PrefixOfConcat(r, text[Resume(slots, j - 1)..slots[j - 1].start] + Filler(text, slots[j - 1], args), |p|);
  }

  /** In the result, slot `n` has become its filler and the gap before it is the original
      text, both at the slot's own position moved by the growth of the slots before it. */
  lemma SlotReplaced(text: string, slots: seq<Argument>, args: seq<string>, n: nat)
    requires Laid(text, slots) && n < |slots|
    ensures var r, a, d := Substituted(text, slots, args), slots[n], Shift(text, slots, args, n);
      var fill := Filler(text, a, args);
      && 0 <= Resume(slots, n) + d <= a.start + d
      && a.start + d + |fill| <= |r|
      && r[Resume(slots, n) + d..a.start + d] == text[Resume(slots, n)..a.start]
      && r[a.start + d..a.start + d + |fill|] == fill
  {
    var a, prefix, resume := slots[n], Rendered(text, slots, args, n), Resume(slots, n);
    RenderedNext(text, slots, args, n);
    var gap, fill := text[resume..a.start], Filler(text, a, args);
    var r := Substituted(text, slots, args);
    SubstitutedPrefix(text, slots, args, n + 1);
    var d := Shift(text, slots, args, n);
    PiecesOfPrefix(r, prefix, gap, fill, resume + d, a.start + d);
  }

  /** The next rendered prefix adds the gap before slot `i` and the slot's filler. */
  lemma RenderedNext(text: string, slots: seq<Argument>, args: seq<string>, i: nat)
    requires Laid(text, slots) && i < |slots|
    ensures Resume(slots, i) <= slots[i].start
    ensures Rendered(text, slots, args, i + 1)
      == Rendered(text, slots, args, i) + text[Resume(slots, i)..slots[i].start] + Filler(text, slots[i], args)
  {
    if i > 0 {
      assert slots[i - 1].end <= slots[i].start;
    }
  }

  /** Every rendered prefix is a prefix of the result. */
  lemma SubstitutedPrefix(text: string, slots: seq<Argument>, args: seq<string>, i: nat)
    requires Laid(text, slots) && i <= |slots|
    ensures var r, p := Substituted(text, slots, args), Rendered(text, slots, args, i); |p| <= |r| && r[..|p|] == p
  {
    var all, rest := Rendered(text, slots, args, |slots|), text[Resume(slots, |slots|)..];
    RenderedGrows(text, slots, args, i, |slots|);
    PrefixOfConcat(all, rest, |Rendered(text, slots, args, i)|);
  }

  /** A prefix of `x + y` no longer than `x` is a prefix of `x`. */
  lemma PrefixOfConcat(x: string, y: string, k: nat)
    requires k <= |x|
    ensures (x + y)[..k] == x[..k]
  {
  }

  /** The pieces of a prefix of `r` can be read back from `r`, at the positions where
      they were laid. */
  lemma PiecesOfPrefix(r: string, prefix: string, gap: string, fill: string, at: int, fillAt: int)
    requires |prefix + gap + fill| <= |r| && r[..|prefix + gap + fill|] == prefix + gap + fill
    requires at == |prefix| && fillAt == |prefix| + |gap|
    ensures 0 <= at <= fillAt && fillAt + |fill| <= |r|
    ensures r[at..fillAt] == gap && r[fillAt..fillAt + |fill|] == fill
  {
    var next := prefix + gap + fill;
    assert r[at..fillAt] == next[at..fillAt];
    assert r[fillAt..|next|] == next[fillAt..];
  }

  /** Once there are more arguments than the largest target, every slot is filled. */
  lemma EnoughArguments(raw: string, args: seq<string>)
    requires |args| > Compile(raw).maxArgument
    ensures forall n :: 0 <= n < |Compile(raw).arguments| ==> Compile(raw).arguments[n].target < |args|
  {
  }

  /** The quoting the compiler exists for: a tag argument written without quotes,
      `<name:value>`, compiles to `<name:'value'>` (when the value neither starts with a
      quote nor ends in `'`). */
  lemma CompileQuotesValue(n: string, v: string)
    requires '>' !in n && ':' !in n
    requires '>' !in v && ':' !in v
    requires v != [] && !IsQuote(v[0]) && v[|v| - 1] != '\''
    ensures Compile("<" + n + ":" + v + ">").pattern == "<" + n + ":'" + v + "'>"
  {
    var raw := "<" + n + ":" + v + ">";
    var c := |n| + 1;
    assert raw[..c + 1] == "<" + n + ":" && raw[c + 1..|raw| - 1] == v;
    forall i | 0 < i < |raw| - 1 && i != c
      ensures raw[i] != '>' && raw[i] != ':'
    {
      if i < c {
        assert raw[i] == n[i - 1];
      } else {
        assert raw[i] == v[i - c - 1];
      }
    }
    ScanTagValue(raw, c);
  }

  /** An argument already quoted, `<name:'value'>` or `<name:"value">`, is left as it is. */
  lemma CompileKeepsQuotedValue(n: string, v: string)
    requires '>' !in n && ':' !in n
    requires '>' !in v && ':' !in v
    requires v != [] && IsQuote(v[0]) && v[|v| - 1] == v[0]
    ensures Compile("<" + n + ":" + v + ">").pattern == "<" + n + ":" + v + ">"
  {
    var raw := "<" + n + ":" + v + ">";
    var c := |n| + 1;
    assert raw[c + 1] == v[0] && raw[|raw| - 2] == v[|v| - 1];
    forall i | 0 < i < |raw| - 1 && i != c
      ensures raw[i] != '>' && raw[i] != ':'
    {
      if i < c {
        assert raw[i] == n[i - 1];
      } else {
        assert raw[i] == v[i - c - 1];
      }
    }
    ScanQuotedValue(raw, c);
  }

  /** `f` has a slot spanning the text `w` that targets argument `target`. */
  predicate HasSlot(f: Format, w: string, target: nat) {
    exists n :: 0 <= n < |f.arguments| && Covers(f.pattern, f.arguments[n], w) && f.arguments[n].target == target
  }

  /** A one-digit `{d}` of the raw template becomes a slot targeting argument `d`. */
  lemma DigitSlot(raw: string, o: nat)
    requires o + 2 < |raw| && raw[o] == '{' && IsDigit(raw[o + 1]) && raw[o + 2] == '}'
    ensures HasSlot(Compile(raw), ['{', raw[o + 1], '}'], DigitValue(raw[o + 1]))
  {
    assert raw[o + 1..o + 2] == [raw[o + 1]];
    assert raw[o..o + 3] == ['{', raw[o + 1], '}'];
    assert ParseNat(raw[o + 1..o + 2]) == DigitValue(raw[o + 1]) by {
      assert raw[o + 1..o + 2][..0] == [];
    }
    CompileSlotTargets(raw, o, o + 2);
  }
}
