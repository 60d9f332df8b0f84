/** The compiling loop of `Format(String)` run over a whole prefix, and the facts it keeps. */
module Scanning {
  import opened Chars
  import opened Compiler
  import opened Wrappers
  import opened Slots

  /** The loop variables after the first `k` characters of `raw`. */
  function Scan(raw: string, k: nat): (s: Scanner)
    requires k <= |raw|
    ensures Sane(raw, k, s)
    decreases k
  {
    if k == 0 then Initial
    else
      var prev := Scan(raw, k - 1);
      StepSane(raw, k, prev);
      Step(prev, raw, k - 1)
  }

  lemma ScanStepKeeps(raw: string, k: nat)
    requires 0 < k <= |raw|
    ensures KeepsInput(raw, k, Step(Scan(raw, k - 1), raw, k - 1))
    decreases k, 0
  {
    ScanKeeps(raw, k - 1);
    StepKeepsInput(raw, k, Scan(raw, k - 1));
  }

  /** The compiled prefix is the input prefix with quotes inserted, and nothing else. */
  lemma {:induction false} ScanKeeps(raw: string, k: nat)
    requires k <= |raw|
    ensures KeepsInput(raw, k, Scan(raw, k))
    decreases k, 1
  {
    if k > 0 {
      ScanStepKeeps(raw, k);
    }
  }

  /** Without a `<` in the input the tag machine never starts, so nothing is inserted. */
  lemma ScanWithoutTags(raw: string, k: nat)
    requires k <= |raw|
    requires '<' !in raw[..k]
    ensures !Scan(raw, k).tag.inTag && Scan(raw, k).offset == 0 && Scan(raw, k).out == raw[..k]
  {
    assert raw[0..k] == raw[..k];
    assert forall i :: 0 <= i < k ==> raw[i] == raw[..k][i];
    ScanOutsideTags(raw, 0, k);
  }

  /** Every slot recorded while compiling a prefix is well placed, ascending and numbered. */
  lemma {:induction false} ScanSlotsPlaced(raw: string, k: nat)
    requires k <= |raw|
    ensures var s := Scan(raw, k); var placed := SlotsPlaced(raw, k, s.out, s.offset, s.slot); placed
    decreases k
  {
    if k > 0 {
      ScanSlotsPlaced(raw, k - 1);
      StepSlotsPlaced(raw, k, Scan(raw, k - 1));
    }
  }

  /** The raw position of the open candidate's `{`, or -1. */
  function OpenStart(raw: string, k: nat): int
    requires k <= |raw|
  {
    if OpenBrace(raw, k).Some? then OpenBrace(raw, k).value else -1
  }

  /** The recorded slots are exactly the `{digits}` occurrences of the input, in order, and
      each one's compiled text is the occurrence's text. */
  predicate MatchesRaw(raw: string, k: nat, s: Scanner)
    requires k <= |raw|
  {
    && s.slot.start == OpenStart(raw, k)
    && TextsMatch(s.out, s.slot.args, raw, RawSlots(raw, k))
  }

  /** The slot machine's candidate follows the raw `OpenBrace`. */
  lemma SlotStepOpenStart(raw: string, k: nat, m: SlotMachine, offset: nat)
    requires 0 < k <= |raw| && SlotSane(raw, k - 1, m)
    requires m.start == OpenStart(raw, k - 1)
    ensures SlotStep(m, raw[k - 1], k - 1, offset).start == OpenStart(raw, k)
  {
  }

  /** Slots recorded earlier keep their text when the output grows. */
  lemma ArgsTextKept(out: string, t: string, args: seq<Argument>, raw: string, spans: seq<Span>)
    requires TextsMatch(out, args, raw, spans)
    ensures TextsMatch(out + t, args, raw, spans)
  {
    forall n | 0 <= n < |args|
      ensures (out + t)[args[n].start..args[n].end] == raw[spans[n].open..spans[n].close + 1]
    {
      assert (out + t)[args[n].start..args[n].end] == out[args[n].start..args[n].end];
    }
  }

  /** A step that records no slot keeps the match. */
  lemma StepMatchesRawPlain(raw: string, k: nat, s: Scanner)
    requires 0 < k <= |raw|
    requires Sane(raw, k - 1, s)
    requires var matched := MatchesRaw(raw, k - 1, s); matched
    requires !(raw[k - 1] == '}' && s.slot.start >= 0)
    ensures var t := Step(s, raw, k - 1); var matched := MatchesRaw(raw, k, t); matched
  {
    var ins := TagStep(s.tag, raw, k - 1).1;
    SlotStepOpenStart(raw, k, s.slot, s.offset);
    assert SlotStep(s.slot, raw[k - 1], k - 1, s.offset).args == s.slot.args;
    assert RawSlots(raw, k) == RawSlots(raw, k - 1);
    ArgsTextKept(s.out, ins + [raw[k - 1]], s.slot.args, raw, RawSlots(raw, k - 1));
    assert s.out + ins + [raw[k - 1]] == s.out + (ins + [raw[k - 1]]);
    StepMatchesFields(raw, k, s);
  }

  /** Each slot's compiled text is its span's raw text. */
  predicate TextsMatch(out: string, args: seq<Argument>, raw: string, spans: seq<Span>) {
    && |args| == |spans|
    && forall n :: 0 <= n < |args| ==>
         && args[n].start <= args[n].end <= |out|
         && spans[n].open <= spans[n].close < |raw|
         && out[args[n].start..args[n].end] == raw[spans[n].open..spans[n].close + 1]
  }

  /** The match at one slot. */
  lemma TextsMatchAt(out: string, args: seq<Argument>, raw: string, spans: seq<Span>, n: nat)
    requires TextsMatch(out, args, raw, spans) && n < |args|
    ensures n < |spans| && args[n].start <= args[n].end <= |out| && spans[n].open <= spans[n].close < |raw|
    ensures out[args[n].start..args[n].end] == raw[spans[n].open..spans[n].close + 1]
  {
  }

  lemma TextsMatchAppend(out: string, args: seq<Argument>, raw: string, spans: seq<Span>, a: Argument, sp: Span)
    requires TextsMatch(out, args, raw, spans)
    requires a.start <= a.end <= |out| && sp.open <= sp.close < |raw|
    requires out[a.start..a.end] == raw[sp.open..sp.close + 1]
    ensures TextsMatch(out, args + [a], raw, spans + [sp])
  {
    var args', spans' := args + [a], spans + [sp];
    forall n | 0 <= n < |args'|
      ensures args'[n].start <= args'[n].end <= |out| && spans'[n].open <= spans'[n].close < |raw|
      ensures out[args'[n].start..args'[n].end] == raw[spans'[n].open..spans'[n].close + 1]
    {
      if n < |args| {
        assert args'[n] == args[n] && spans'[n] == spans[n];
      }
    }
  }

  /** A `}` closing a candidate records the slot of the occurrence that just ended. */
  lemma CloseMatchesRaw(raw: string, k: nat, out: string, offset: nat, m: SlotMachine)
    requires 0 < k <= |raw| && SlotSane(raw, k - 1, m) && |out| == k - 1 + offset
    requires raw[k - 1] == '}' && m.start >= 0 && m.start == OpenStart(raw, k - 1)
    requires m.start + offset <= |out| && out[m.start + offset..] == raw[m.start..k - 1]
    requires TextsMatch(out, m.args, raw, RawSlots(raw, k - 1))
    ensures var m' := SlotStep(m, raw[k - 1], k - 1, offset); TextsMatch(out + [raw[k - 1]], m'.args, raw, RawSlots(raw, k))
  {
    var c := raw[k - 1];
    var target := if m.number == [] then m.currentArg else ParseNat(m.number);
    var a := NewArgument(m.start + offset, k - 1 + offset, target);
    assert SlotStep(m, c, k - 1, offset).args == m.args + [a];
    var spans := RawSlots(raw, k - 1);
    assert RawSlots(raw, k) == spans + [Span(m.start, k - 1)];
    ArgsTextKept(out, [c], m.args, raw, spans);
    ClosedSlotText(raw, k, out, offset, m.start);
    TextsMatchAppend(out + [c], m.args, raw, spans, a, Span(m.start, k - 1));
  }

  lemma StepMatchesRawClose(raw: string, k: nat, s: Scanner)
    requires 0 < k <= |raw|
    requires Sane(raw, k - 1, s)
    requires var matched := MatchesRaw(raw, k - 1, s); matched
    requires var placed := SlotsPlaced(raw, k - 1, s.out, s.offset, s.slot); placed
    requires raw[k - 1] == '}' && s.slot.start >= 0
    ensures var t := Step(s, raw, k - 1); var matched := MatchesRaw(raw, k, t); matched
  {
    OpenSlotNoInsertion(raw, k, s);
    SlotStepOpenStart(raw, k, s.slot, s.offset);
    CloseMatchesRaw(raw, k, s.out, s.offset, s.slot);
    assert s.out + TagStep(s.tag, raw, k - 1).1 + [raw[k - 1]] == s.out + [raw[k - 1]];
    StepMatchesFields(raw, k, s);
  }

  /** The match about the pieces a step appends is the match about the step. */
  lemma StepMatchesFields(raw: string, k: nat, s: Scanner)
    requires 0 < k <= |raw| && Sane(raw, k - 1, s)
    requires var ins := TagStep(s.tag, raw, k - 1).1;
      var m' := SlotStep(s.slot, raw[k - 1], k - 1, s.offset);
      var matched := MatchesRaw(raw, k, Scanner(s.out + ins + [raw[k - 1]], s.copied + Inserted(ins) + [true], s.offset + |ins|, m', TagStep(s.tag, raw, k - 1).0));
      matched
    ensures var t := Step(s, raw, k - 1); var matched := MatchesRaw(raw, k, t); matched
  {
  }

  /** One step of the compiling loop keeps the match with the raw occurrences. */
  lemma StepMatchesRaw(raw: string, k: nat, s: Scanner)
    requires 0 < k <= |raw|
    requires var sane := Sane(raw, k - 1, s); sane
    requires var matched := MatchesRaw(raw, k - 1, s); matched
    requires var placed := SlotsPlaced(raw, k - 1, s.out, s.offset, s.slot); placed
    ensures var t := Step(s, raw, k - 1); var matched := MatchesRaw(raw, k, t); matched
  {
    if raw[k - 1] == '}' && s.slot.start >= 0 {
      StepMatchesRawClose(raw, k, s);
    } else {
      StepMatchesRawPlain(raw, k, s);
    }
  }

  /** Every `{digits}` occurrence of the input prefix becomes exactly one slot, in order. */
  lemma {:induction false} ScanMatchesRaw(raw: string, k: nat)
    requires k <= |raw|
    ensures var s := Scan(raw, k); var matched := MatchesRaw(raw, k, s); matched
    decreases k
  {
    if k > 0 {
      var prev := Scan(raw, k - 1);
      ScanMatchesRaw(raw, k - 1);
      ScanSlotsPlaced(raw, k - 1);
      StepMatchesRaw(raw, k, prev);
    }
  }

  /** Compiling `raw[j..k]` copies it unchanged and leaves the tag machine and the quote
      count as they were after `j` characters. */
  predicate Copies(raw: string, j: nat, k: nat)
    requires j <= k <= |raw|
  {
    var a, b := Scan(raw, j), Scan(raw, k);
    b.tag == a.tag && b.offset == a.offset && b.out == a.out + raw[j..k]
  }

  /** A stretch without `<` compiled outside any tag is copied as it is. */
  lemma {:induction false} ScanOutsideTags(raw: string, j: nat, k: nat)
    requires j <= k <= |raw|
    requires !Scan(raw, j).tag.inTag
    requires forall i :: j <= i < k ==> raw[i] != '<'
    ensures Copies(raw, j, k)
    decreases k
  {
    if k > j {
      ScanOutsideTags(raw, j, k - 1);
      StepOutsideTags(raw, k, Scan(raw, k - 1));
      CopiesStep(raw, j, k);
    }
  }

  /** Inside a tag, past the first character of any value, a stretch without `>` and `:`
      is copied as it is. */
  lemma {:induction false} ScanInsideTag(raw: string, j: nat, k: nat)
    requires j <= k <= |raw|
    requires Scan(raw, j).tag.inTag && Scan(raw, j).tag.valueStart + 1 < j
    requires forall i :: j <= i < k ==> raw[i] != '>' && raw[i] != ':'
    ensures Copies(raw, j, k)
    decreases k
  {
    if k > j {
      ScanInsideTag(raw, j, k - 1);
      var s := Scan(raw, k - 1);
      assert s.tag == Scan(raw, j).tag;
      StepInsideTag(raw, k, s);
      CopiesStep(raw, j, k);
    }
  }

  /** One more copied character extends a copied stretch. */
  lemma CopiesStep(raw: string, j: nat, k: nat)
    requires j < k <= |raw| && Copies(raw, j, k - 1)
    requires CopiedAlone(raw, k, Scan(raw, k - 1))
    ensures Copies(raw, j, k)
  {
    ScanUnfold(raw, k);
    SliceSnoc(Scan(raw, j).out, raw, j, k);
  }

  lemma SliceSnoc(prefix: string, raw: string, j: nat, k: nat)
    requires j < k <= |raw|
    ensures prefix + raw[j..k] == prefix + raw[j..k - 1] + [raw[k - 1]]
  {
    assert raw[j..k] == raw[j..k - 1] + [raw[k - 1]];
  }

  /** The loop variables after `k` characters are one step on from those after `k - 1`. */
  lemma ScanUnfold(raw: string, k: nat)
    requires 0 < k <= |raw|
    ensures Scan(raw, k) == Step(Scan(raw, k - 1), raw, k - 1)
  {
  }

  /** After the first `k` characters the output is `out`, `offset` quotes have been
      inserted, and the tag machine is in state `tag`. */
  predicate Reached(raw: string, k: nat, out: string, offset: nat, tag: TagMachine)
    requires k <= |raw|
  {
    var s := Scanned(raw, k);
    s.out == out && s.offset == offset && s.tag == tag
  }

  /** `Scan` behind a name that does not unfold, so that a goal about `Reached` stays small. */
  function Scanned(raw: string, k: nat): Scanner
    requires k <= |raw|
  {
    Scan(raw, k)
  }

  /** From a reached state one more character appends the tag machine's quote, if any, and
      the character itself. */
  lemma ReachedStep(raw: string, k: nat, out: string, offset: nat, tag: TagMachine)
    requires 0 < k <= |raw| && Reached(raw, k - 1, out, offset, tag)
    ensures -1 <= tag.valueStart < k - 1
    ensures var r := TagStep(tag, raw, k - 1); Reached(raw, k, out + r.1 + [raw[k - 1]], offset + |r.1|, r.0)
  {
    ScanUnfold(raw, k);
  }

  /** From a reached state outside any tag, a stretch without `<` is copied as it is. */
  lemma ReachedOutside(raw: string, j: nat, k: nat, out: string, offset: nat, tag: TagMachine)
    requires j <= k <= |raw| && Reached(raw, j, out, offset, tag)
    requires !tag.inTag && '<' !in raw[j..k]
    ensures Reached(raw, k, out + raw[j..k], offset, tag)
  {
    assert forall i :: j <= i < k ==> raw[i] == raw[j..k][i - j];
    ScanOutsideTags(raw, j, k);
  }

  /** From a reached state inside a tag and past the first character of any value, a
      stretch without `>` and `:` is copied as it is. */
  lemma ReachedInside(raw: string, j: nat, k: nat, out: string, offset: nat, tag: TagMachine)
    requires j <= k <= |raw| && Reached(raw, j, out, offset, tag)
    requires tag.inTag && tag.valueStart + 1 < j
    requires forall i :: j <= i < k ==> raw[i] != '>' && raw[i] != ':'
    ensures Reached(raw, k, out + raw[j..k], offset, tag)
  {
    ScanInsideTag(raw, j, k);
  }

  /** `ReachedStep` with the machine's answer on the character given. */
  lemma ReachedNext(raw: string, k: nat, out: string, offset: nat, tag: TagMachine, ins: string, tag': TagMachine)
    requires 0 < k <= |raw| && Reached(raw, k - 1, out, offset, tag)
    requires -1 <= tag.valueStart < k - 1
    requires TagStep(tag, raw, k - 1) == (tag', ins)
    ensures Reached(raw, k, out + ins + [raw[k - 1]], offset + |ins|, tag')
  {
    ReachedStep(raw, k, out, offset, tag);
  }

  /** Nothing has been read yet: the output is empty and no tag is open. */
  lemma ReachedStart(raw: string)
    ensures Reached(raw, 0, [], 0, TagMachine(false, -1, '\''))
  {
  }

  /** A tag's name: from outside any tag, `<` and the name up to the `>` or `:` at `e` are
      copied. After `>` the tag is closed again; after `:` a value starts at `e + 1`. */
  lemma ReachedTagName(raw: string, j: nat, e: nat, out: string, offset: nat, escape: char)
    requires j < e < |raw| && raw[j] == '<' && (raw[e] == '>' || raw[e] == ':')
    requires forall i :: j < i < e ==> raw[i] != '>' && raw[i] != ':'
    requires Reached(raw, j, out, offset, TagMachine(false, -1, escape))
    ensures Reached(raw, e + 1, out + raw[j..e + 1], offset,
                    if raw[e] == ':' then TagMachine(true, e, escape) else TagMachine(false, -1, escape))
  {
    ReachedTagOpen(raw, j, e, out, offset, escape);
    ReachedStep(raw, e + 1, out + [raw[j]] + raw[j + 1..e], offset, TagMachine(true, -1, escape));
    Around(out, raw, j, e);
  }

  /** The `<` at `j` and the tag name after it, up to `e`, are copied as they are. */
  lemma ReachedTagOpen(raw: string, j: nat, e: nat, out: string, offset: nat, escape: char)
    requires j < e < |raw| && raw[j] == '<'
    requires forall i :: j < i < e ==> raw[i] != '>' && raw[i] != ':'
    requires Reached(raw, j, out, offset, TagMachine(false, -1, escape))
    ensures Reached(raw, e, out + [raw[j]] + raw[j + 1..e], offset, TagMachine(true, -1, escape))
  {
    ReachedStep(raw, j + 1, out, offset, TagMachine(false, -1, escape));
    ReachedInside(raw, j + 1, e, out + [raw[j]], offset, TagMachine(true, -1, escape));
  }

  /** A value written without quotes, from `c + 1` up to the `>` or `:` at `d`: a `'` is
      written before its first character and another before `d`, and `'` becomes the
      escape. */
  lemma ReachedUnquotedValue(raw: string, c: nat, d: nat, out: string, offset: nat, escape: char)
    requires c + 1 < d < |raw| && (raw[d] == '>' || raw[d] == ':')
    requires !IsQuote(raw[c + 1]) && raw[d - 1] != '\''
    requires forall i :: c < i < d ==> raw[i] != '>' && raw[i] != ':'
    requires Reached(raw, c + 1, out, offset, TagMachine(true, c, escape))
    ensures Reached(raw, d + 1, out + ['\''] + raw[c + 1..d] + ['\''] + [raw[d]], offset + 2,
                    if raw[d] == ':' then TagMachine(true, d, '\'') else TagMachine(false, -1, '\''))
  {
    ReachedValueBody(raw, c, d, out, offset, escape);
    ReachedValueEnd(raw, d, out + ['\''] + raw[c + 1..d], offset + 1, TagMachine(true, c, '\''));
  }

  /** A value quoted on both ends, from `c + 1` up to the `>` or `:` at `d`: it is copied
      with nothing inserted, since the character before `d` is the escape, and its quote
      becomes the escape. */
  lemma ReachedQuotedValue(raw: string, c: nat, d: nat, out: string, offset: nat, escape: char)
    requires c + 1 < d < |raw| && (raw[d] == '>' || raw[d] == ':')
    requires IsQuote(raw[c + 1]) && raw[d - 1] == raw[c + 1]
    requires forall i :: c < i < d ==> raw[i] != '>' && raw[i] != ':'
    requires Reached(raw, c + 1, out, offset, TagMachine(true, c, escape))
    ensures Reached(raw, d + 1, out + raw[c + 1..d + 1], offset,
                    if raw[d] == ':' then TagMachine(true, d, raw[c + 1]) else TagMachine(false, -1, raw[c + 1]))
  {
    ReachedValueBody(raw, c, d, out, offset, escape);
    ReachedValueEnd(raw, d, out + raw[c + 1..d], offset, TagMachine(true, c, raw[c + 1]));
    assert raw[c + 1..d + 1] == raw[c + 1..d] + [raw[d]];
  }

  /** The value after the `:` at `c`, up to `d`, is copied, with a `'` in front when it
      does not start with a quote. */
  lemma ReachedValueBody(raw: string, c: nat, d: nat, out: string, offset: nat, escape: char)
    requires c + 1 < d <= |raw|
    requires forall i :: c < i < d ==> raw[i] != '>' && raw[i] != ':'
    requires Reached(raw, c + 1, out, offset, TagMachine(true, c, escape))
    ensures var q := if IsQuote(raw[c + 1]) then [] else ['\''];
      Reached(raw, d, out + q + raw[c + 1..d], offset + |q|,
              TagMachine(true, c, if IsQuote(raw[c + 1]) then raw[c + 1] else '\''))
  {
    ReachedValueStart(raw, c, out, offset, escape);
    var q := if IsQuote(raw[c + 1]) then [] else ['\''];
    var t := TagMachine(true, c, if IsQuote(raw[c + 1]) then raw[c + 1] else '\'');
    ReachedInside(raw, c + 2, d, out + q + [raw[c + 1]], offset + |q|, t);
    Joined(out + q, raw, c + 1, d);
  }

  /** The first character of the value after the `:` at `c`: a quote becomes the escape
      and is copied alone; any other character gets a `'` written before it. */
  lemma ReachedValueStart(raw: string, c: nat, out: string, offset: nat, escape: char)
    requires c + 1 < |raw| && raw[c + 1] != '>' && raw[c + 1] != ':'
    requires Reached(raw, c + 1, out, offset, TagMachine(true, c, escape))
    ensures var q := if IsQuote(raw[c + 1]) then [] else ['\''];
      Reached(raw, c + 2, out + q + [raw[c + 1]], offset + |q|,
              TagMachine(true, c, if IsQuote(raw[c + 1]) then raw[c + 1] else '\''))
  {
    ReachedStep(raw, c + 2, out, offset, TagMachine(true, c, escape));
  }

  /** The `>` or `:` at `d` ends the open value: the escape is written before it unless
      the value already ends in it. */
  lemma ReachedValueEnd(raw: string, d: nat, out: string, offset: nat, t: TagMachine)
    requires 0 < d < |raw| && (raw[d] == '>' || raw[d] == ':')
    requires t.inTag && 0 <= t.valueStart < d
    requires Reached(raw, d, out, offset, t)
    ensures var close := if raw[d - 1] != t.escape then [t.escape] else [];
      Reached(raw, d + 1, out + close + [raw[d]], offset + |close|,
              if raw[d] == ':' then TagMachine(true, d, t.escape) else TagMachine(false, -1, t.escape))
  {
    ReachedStep(raw, d + 1, out, offset, t);
  }

  /** `raw[j..e + 1]` is its first character, its middle and its last. */
  lemma Around(out: string, raw: string, j: nat, e: nat)
    requires j < e < |raw|
    ensures out + [raw[j]] + raw[j + 1..e] + [raw[e]] == out + raw[j..e + 1]
  {
    assert raw[j..e + 1] == [raw[j]] + raw[j + 1..e] + [raw[e]];
  }

  /** `raw[j..d]` is its first character and the rest. */
  lemma Joined(head: string, raw: string, j: nat, d: nat)
    requires j < d <= |raw|
    ensures head + [raw[j]] + raw[j + 1..d] == head + raw[j..d]
  {
    assert raw[j..d] == [raw[j]] + raw[j + 1..d];
  }

  /** A template opening with a tag name `<name:` copies it and opens a value at `c`. */
  lemma ReachedFirstName(raw: string, c: nat)
    requires 0 < c < |raw| && raw[0] == '<' && raw[c] == ':'
    requires forall i :: 0 < i < c ==> raw[i] != '>' && raw[i] != ':'
    ensures Reached(raw, c + 1, raw[..c + 1], 0, TagMachine(true, c, '\''))
  {
    ReachedStart(raw);
    ReachedTagName(raw, 0, c, [], 0, '\'');
    assert raw[0..c + 1] == raw[..c + 1];
  }

  /** A template that is one tag `<name:value>` with an unquoted value compiles to
      `<name:'value'>`: two quotes are inserted. */
  lemma ScanTagValue(raw: string, c: nat)
    requires 0 < c && c + 3 <= |raw| && raw[0] == '<' && raw[c] == ':' && raw[|raw| - 1] == '>'
    requires forall i :: 0 < i < |raw| - 1 && i != c ==> raw[i] != '>' && raw[i] != ':'
    requires !IsQuote(raw[c + 1]) && raw[|raw| - 2] != '\''
    ensures Reached(raw, |raw|, raw[..c + 1] + ['\''] + raw[c + 1..|raw| - 1] + ['\''] + ['>'], 2, TagMachine(false, -1, '\''))
  {
    ReachedFirstName(raw, c);
    ReachedUnquotedValue(raw, c, |raw| - 1, raw[..c + 1], 0, '\'');
  }

  /** A template that is one tag `<name:value>` whose value is quoted on both ends
      compiles to itself. */
  lemma ScanQuotedValue(raw: string, c: nat)
    requires 0 < c && c + 3 <= |raw| && raw[0] == '<' && raw[c] == ':' && raw[|raw| - 1] == '>'
    requires forall i :: 0 < i < |raw| - 1 && i != c ==> raw[i] != '>' && raw[i] != ':'
    requires IsQuote(raw[c + 1]) && raw[|raw| - 2] == raw[c + 1]
    ensures Reached(raw, |raw|, raw, 0, TagMachine(false, -1, raw[c + 1]))
  {
    ReachedFirstName(raw, c);
    ReachedQuotedValue(raw, c, |raw| - 1, raw[..c + 1], 0, '\'');
    assert raw[..c + 1] + raw[c + 1..|raw|] == raw;
  }
}
