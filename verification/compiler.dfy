/**
 The pattern compiler of `Format(String)`: one pass over the raw template that runs two
 state machines on the same index. The slot machine finds `{}` / `{N}` argument slots; the
 tag machine quotes the values of `<tag:value>` markup tags, and every quote it inserts
 shifts the slots recorded after it.

 Several contracts below name a predicate through a local, as in
 `ensures var placed := SlotsPlaced(…); placed`. This means the same as
 `ensures SlotsPlaced(…)`. The difference is that the verifier does not split the fact into
 the predicate's separate conjuncts, which keeps these proofs small. Scanning uses the same
 form.
 */
module Compiler {
  import opened Chars

  /** One argument slot (the source's `Argument` record): the span `[start, end)` of the
      compiled text it covers, the index of the argument it consumes, and its width. */
  datatype Argument = Argument(start: nat, end: nat, target: nat, length: nat)

  /** The record's three-argument constructor; `last` is the position of the closing brace. */
  function NewArgument(start: nat, last: nat, target: nat): Argument
    requires start <= last
  {
    Argument(start, last + 1, target, last - start + 1)
  }

  /** `a` covers `{` digits `}` of `text`, its width matches its span, and a numbered slot
      targets the number written between its braces. */
  predicate WellPlaced(text: string, a: Argument) {
    && a.start < a.end <= |text|
    && a.length == a.end - a.start
    && a.length >= 2
    && text[a.start] == '{'
    && text[a.end - 1] == '}'
    && AllDigits(text[a.start + 1..a.end - 1])
    && (a.length > 2 ==> a.target == ParseNat(text[a.start + 1..a.end - 1]))
  }

  /** Slots come in strictly ascending, non-overlapping order. */
  predicate Ascending(args: seq<Argument>) {
    forall m, n :: 0 <= m < n < |args| ==> args[m].end <= args[n].start
  }

  /** How many slots are empty braces `{}`. */
  function EmptyCount(args: seq<Argument>): nat
    decreases |args|
  {
    if args == [] then 0
    else EmptyCount(args[..|args| - 1]) + (if args[|args| - 1].length == 2 then 1 else 0)
  }

  /** Each empty slot targets the number of empty slots before it: 0, 1, 2, ... */
  predicate AutoNumbered(args: seq<Argument>) {
    forall m :: 0 <= m < |args| && args[m].length == 2 ==> args[m].target == EmptyCount(args[..m])
  }

  /** The slot machine's variables: the slots recorded so far, the auto-counter, and the
      open candidate (`start` is -1 when there is none; `number` holds its digits). */
  datatype SlotMachine = SlotMachine(args: seq<Argument>, currentArg: nat, start: int, number: string)

  /** The tag machine's variables: inside `<...>`, where the current value's `:` is (-1
      when not in a value), and the active quote character. */
  datatype TagMachine = TagMachine(inTag: bool, valueStart: int, escape: char)

  /** The local variables of the compiling loop: the output, the running count of inserted
      quotes, and the two machines. `copied` is not in the source: it marks which output
      characters were copied from the input (true) and which were inserted (false). */
  datatype Scanner = Scanner(out: string, copied: seq<bool>, offset: nat, slot: SlotMachine, tag: TagMachine)

  const Initial: Scanner :=
    Scanner([], [], 0, SlotMachine([], 0, -1, []), TagMachine(false, -1, '\''))

  /** An open slot candidate starts at a `{` followed by the digits collected so far. */
  predicate SlotSane(raw: string, k: nat, m: SlotMachine)
    requires k <= |raw|
  {
    && -1 <= m.start < k
    && AllDigits(m.number)
    && (m.start >= 0 ==> raw[m.start] == '{' && m.number == raw[m.start + 1..k])
  }

  /** A value region starts at a `:` inside a tag, and the active quote is a quote. */
  predicate TagSane(raw: string, k: nat, t: TagMachine)
    requires k <= |raw|
  {
    && -1 <= t.valueStart < k
    && (t.valueStart >= 0 ==> t.inTag && raw[t.valueStart] == ':')
    && IsQuote(t.escape)
  }

  /** The facts about the loop variables that every step relies on. */
  predicate Sane(raw: string, k: nat, s: Scanner)
    requires k <= |raw|
  {
    && SlotSane(raw, k, s.slot)
    && TagSane(raw, k, s.tag)
    && |s.out| == k + s.offset
    && |s.copied| == |s.out|
  }

  /** The slot machine on character `c` at index `i`; `offset` is the number of quotes
      inserted before this character's own insertion. */
  function SlotStep(m: SlotMachine, c: char, i: nat, offset: nat): SlotMachine
    requires -1 <= m.start <= i
    requires AllDigits(m.number)
  {
    if c == '{' then m.(start := i, number := [])
    else if c == '}' then
      if m.start == -1 then m
      else
        var target := if m.number == [] then m.currentArg else ParseNat(m.number);
        SlotMachine(m.args + [NewArgument(m.start + offset, i + offset, target)],
                    if m.number == [] then m.currentArg + 1 else m.currentArg,
                    -1, [])
    else if m.start == -1 then m
    else if IsDigit(c) then m.(number := m.number + [c])
    else m.(start := -1, number := [])
  }

  /** The tag machine on `raw[i]`: its new state and the quote (if any) it writes before
      the character. The closing quote is skipped when the raw character before `>` or a
      second `:` already is the active quote. */
  function TagStep(t: TagMachine, raw: string, i: nat): (TagMachine, string)
    requires i < |raw|
    requires -1 <= t.valueStart < i
  {
    var c := raw[i];
    if !t.inTag then
      (if c == '<' then t.(inTag := true) else t, [])
    else if c == '>' then
      (TagMachine(false, -1, t.escape),
       if t.valueStart != -1 && raw[i - 1] != t.escape then [t.escape] else [])
    else if c == ':' then
      (t.(valueStart := i),
       if t.valueStart != -1 && raw[i - 1] != t.escape then [t.escape] else [])
    else if t.valueStart == -1 || t.valueStart + 1 != i then (t, [])
    else if IsQuote(c) then (t.(escape := c), [])
    else (t.(escape := '\''), ['\''])
  }

  /** `raw[i]` is the first character of a value: it follows the value's `:` directly and
      neither ends the tag nor starts another value. */
  predicate OpensValue(t: TagMachine, raw: string, i: nat)
    requires i < |raw|
  {
    t.inTag && t.valueStart >= 0 && t.valueStart + 1 == i && raw[i] != '>' && raw[i] != ':'
  }

  /** `raw[i]` is a `>` or `:` that ends a value whose last raw character is not the active
      quote. */
  predicate ClosesValue(t: TagMachine, raw: string, i: nat)
    requires 0 < i < |raw|
  {
    t.inTag && (raw[i] == '>' || raw[i] == ':') && t.valueStart >= 0 && raw[i - 1] != t.escape
  }

  /** Where the tag machine writes a quote, and which one. A value whose first character is
      not a quote gets an opening `'`, which becomes the active quote; a value starting with
      a quote gets nothing, and that quote becomes the active one. At the `>` or `:` ending
      a value the active quote closes it, unless the value already ends with it. A quote is
      written in exactly these places, and the active quote changes nowhere else. */
  lemma TagStepQuotes(t: TagMachine, raw: string, i: nat)
    requires i < |raw| && -1 <= t.valueStart < i
    ensures var r := TagStep(t, raw, i);
      && (OpensValue(t, raw, i) && !IsQuote(raw[i]) ==> r.1 == ['\''] && r.0.escape == '\'')
      && (OpensValue(t, raw, i) && IsQuote(raw[i]) ==> r.1 == [] && r.0.escape == raw[i])
      && (0 < i && ClosesValue(t, raw, i) ==> r.1 == [t.escape])
      && (r.1 != [] <==> (OpensValue(t, raw, i) && !IsQuote(raw[i])) || (0 < i && ClosesValue(t, raw, i)))
      && (!OpensValue(t, raw, i) ==> r.0.escape == t.escape)
  {
  }

  /** The provenance marks of inserted characters: all false. */
  function Inserted(ins: string): (marks: seq<bool>)
    ensures |marks| == |ins| && forall p :: 0 <= p < |marks| ==> !marks[p]
    decreases |ins|
  {
    if ins == [] then [] else [false] + Inserted(ins[1..])
  }

  /** One iteration of the compiling loop over `raw[i]`: both machines see the character,
      then the tag machine's insertion and the character itself are appended. */
  function Step(s: Scanner, raw: string, i: nat): Scanner
    requires i < |raw| && Sane(raw, i, s)
  {
    var ins := TagStep(s.tag, raw, i).1;
    Scanner(s.out + ins + [raw[i]], s.copied + Inserted(ins) + [true], s.offset + |ins|,
            SlotStep(s.slot, raw[i], i, s.offset), TagStep(s.tag, raw, i).0)
  }

  /* The lemmas below take `k`, the number of characters processed AFTER the step, so
     that their conclusions mention `Step(s, raw, k - 1)` exactly as `Scan` does. */

  lemma SlotStepSane(raw: string, k: nat, m: SlotMachine, offset: nat)
    requires 0 < k <= |raw| && SlotSane(raw, k - 1, m)
    ensures SlotSane(raw, k, SlotStep(m, raw[k - 1], k - 1, offset))
  {
    var c := raw[k - 1];
    var m' := SlotStep(m, c, k - 1, offset);
    if c == '{' {
      assert m'.start == k - 1 && m'.number == [];
    } else if c == '}' || m.start == -1 || !IsDigit(c) {
      assert m'.start == -1 && AllDigits(m'.number);
    } else {
      assert m'.start == m.start && m'.number == m.number + [c];
      assert raw[m.start + 1..k] == raw[m.start + 1..k - 1] + [c];
    }
  }

  /** The tag machine keeps its facts, and it inserts at most one quote, only inside a
      tag, at `>`, at `:`, or right after a `:`. */
  lemma TagStepSane(raw: string, k: nat, t: TagMachine)
    requires 0 < k <= |raw| && TagSane(raw, k - 1, t)
    ensures var r := TagStep(t, raw, k - 1);
      && TagSane(raw, k, r.0)
      && |r.1| <= 1
      && (forall q :: q in r.1 ==> IsQuote(q))
      && (r.1 != [] ==> t.inTag && (raw[k - 1] == '>' || raw[k - 1] == ':' || raw[k - 2] == ':'))
  {
  }

  lemma StepSane(raw: string, k: nat, s: Scanner)
    requires 0 < k <= |raw| && Sane(raw, k - 1, s)
    ensures Sane(raw, k, Step(s, raw, k - 1))
  {
    SlotStepSane(raw, k, s.slot, s.offset);
    TagStepSane(raw, k, s.tag);
  }

  /** Dropping the inserted characters of a step's output leaves the old kept text plus the
      character the step copied. */
  lemma StepKeep(out: string, copied: seq<bool>, ins: string, c: char)
    requires |out| == |copied| && |ins| <= 1
    ensures Keep(out + ins + [c], copied + Inserted(ins) + [true]) == Keep(out, copied) + [c]
    ensures CountFalse(copied + Inserted(ins) + [true]) == CountFalse(copied) + |ins|
  {
    if ins != [] {
      assert ins == [ins[0]] && Inserted(ins) == [false];
      KeepSnoc(out, copied, ins[0], false);
    } else {
      assert out + ins == out && copied + Inserted(ins) == copied;
    }
    KeepSnoc(out + ins, copied + Inserted(ins), c, true);
  }

  /** One more character: it is kept when marked, and counted as dropped otherwise. */
  lemma KeepSnoc(s: string, marks: seq<bool>, c: char, b: bool)
    requires |s| == |marks|
    ensures Keep(s + [c], marks + [b]) == Keep(s, marks) + (if b then [c] else [])
    ensures CountFalse(marks + [b]) == CountFalse(marks) + (if b then 0 else 1)
  {
    assert (s + [c])[..|s|] == s;
    assert (marks + [b])[..|marks|] == marks;
  }

  /** Removing the inserted characters of `s.out` leaves the first `k` input characters;
      every inserted character is a quote and is counted in `offset`. */
  predicate KeepsInput(raw: string, k: nat, s: Scanner)
    requires k <= |raw|
  {
    && |s.out| == |s.copied|
    && Keep(s.out, s.copied) == raw[..k]
    && (forall p :: 0 <= p < |s.out| && !s.copied[p] ==> IsQuote(s.out[p]))
    && CountFalse(s.copied) == s.offset
  }

  /** Every character of `out + ins + [c]` not marked as copied is a quote. */
  lemma UncopiedQuotes(out: string, copied: seq<bool>, ins: string, c: char)
    requires |out| == |copied|
    requires forall p :: 0 <= p < |out| && !copied[p] ==> IsQuote(out[p])
    requires forall q :: q in ins ==> IsQuote(q)
    ensures forall p :: 0 <= p < |out + ins + [c]| && !(copied + Inserted(ins) + [true])[p] ==>
      IsQuote((out + ins + [c])[p])
  {
    var out', copied' := out + ins + [c], copied + Inserted(ins) + [true];
    forall p | 0 <= p < |out'| && !copied'[p]
      ensures IsQuote(out'[p])
    {
      if p < |out| {
        assert out'[p] == out[p] && copied'[p] == copied[p];
      } else {
        assert out'[p] == ins[p - |out|];
      }
    }
  }

  /** Appending inserted quotes and one copied character keeps the provenance facts. */
  lemma KeepsAppend(raw: string, k: nat, out: string, copied: seq<bool>, offset: nat, ins: string)
    requires 0 < k <= |raw| && |out| == |copied| && |ins| <= 1
    requires Keep(out, copied) == raw[..k - 1] && CountFalse(copied) == offset
    requires forall p :: 0 <= p < |out| && !copied[p] ==> IsQuote(out[p])
    requires forall q :: q in ins ==> IsQuote(q)
    ensures var out', copied' := out + ins + [raw[k - 1]], copied + Inserted(ins) + [true];
      && |out'| == |copied'|
      && Keep(out', copied') == raw[..k]
      && (forall p :: 0 <= p < |out'| && !copied'[p] ==> IsQuote(out'[p]))
      && CountFalse(copied') == offset + |ins|
  {
    StepKeep(out, copied, ins, raw[k - 1]);
    UncopiedQuotes(out, copied, ins, raw[k - 1]);
    assert raw[..k] == raw[..k - 1] + [raw[k - 1]];
  }

  lemma StepKeepsInput(raw: string, k: nat, s: Scanner)
    requires 0 < k <= |raw| && Sane(raw, k - 1, s) && KeepsInput(raw, k - 1, s)
    ensures KeepsInput(raw, k, Step(s, raw, k - 1))
  {
    TagStepSane(raw, k, s.tag);
    KeepsAppend(raw, k, s.out, s.copied, s.offset, TagStep(s.tag, raw, k - 1).1);
  }

  /** The step over `raw[k - 1]` appends that character alone and leaves the tag machine
      and the quote count as they were. */
  predicate CopiedAlone(raw: string, k: nat, s: Scanner)
    requires 0 < k <= |raw| && Sane(raw, k - 1, s)
  {
    var t := Step(s, raw, k - 1);
    t.tag == s.tag && t.offset == s.offset && t.out == s.out + [raw[k - 1]]
  }

  /** Outside a tag nothing is inserted and the tag machine stays as it is; only a `<`
      starts a tag. */
  lemma StepOutsideTags(raw: string, k: nat, s: Scanner)
    requires 0 < k <= |raw|
    requires Sane(raw, k - 1, s)
    requires !s.tag.inTag && raw[k - 1] != '<'
    ensures CopiedAlone(raw, k, s)
  {
  }

  /** Inside a tag, a character that neither ends the tag, nor starts a value with `:`, nor
      is the first character of a value is copied alone, and the tag machine stays put. */
  lemma StepInsideTag(raw: string, k: nat, s: Scanner)
    requires 0 < k <= |raw|
    requires Sane(raw, k - 1, s)
    requires s.tag.inTag
    requires raw[k - 1] != '>' && raw[k - 1] != ':'
    requires s.tag.valueStart + 1 != k - 1
    ensures CopiedAlone(raw, k, s)
  {
  }

  /** Where the next slot may begin: an open candidate's `{`, otherwise the end of the output. */
  function Frontier(outLength: nat, offset: nat, m: SlotMachine): nat {
    if m.start >= 0 then m.start + offset else outLength
  }

  /** The slot facts the compiling loop maintains: every recorded slot is well placed in
      the output, slots are ascending and lie before the frontier, an open candidate's text
      is still contiguous in the output, and empty slots are numbered by the auto-counter. */
  predicate SlotsPlaced(raw: string, k: nat, out: string, offset: nat, m: SlotMachine)
    requires k <= |raw|
  {
    && (forall n :: 0 <= n < |m.args| ==> WellPlaced(out, m.args[n]))
    && Ascending(m.args)
    && (forall n :: 0 <= n < |m.args| ==> m.args[n].end <= Frontier(|out|, offset, m))
    && (m.start >= 0 ==>
          m.start <= k && m.start + offset <= |out| && out[m.start + offset..] == raw[m.start..k])
    && m.currentArg == EmptyCount(m.args)
    && AutoNumbered(m.args)
  }

  lemma WellPlacedExtend(text: string, t: string, a: Argument)
    requires WellPlaced(text, a)
    ensures WellPlaced(text + t, a)
  {
    assert (text + t)[a.start + 1..a.end - 1] == text[a.start + 1..a.end - 1];
  }

  lemma ExtendKeepsPlaced(out: string, t: string, args: seq<Argument>)
    requires forall n :: 0 <= n < |args| ==> WellPlaced(out, args[n])
    ensures forall n :: 0 <= n < |args| ==> WellPlaced(out + t, args[n])
  {
    forall n | 0 <= n < |args|
      ensures WellPlaced(out + t, args[n])
    {
      WellPlacedExtend(out, t, args[n]);
    }
  }

  /** The slot machine keeps its facts whatever quote the tag machine inserts, provided no
      quote lands inside an open candidate. */
  lemma SlotStepPlaced(raw: string, k: nat, out: string, offset: nat, m: SlotMachine, ins: string)
    requires 0 < k <= |raw| && SlotSane(raw, k - 1, m) && |out| == k - 1 + offset
    requires SlotsPlaced(raw, k - 1, out, offset, m)
    requires m.start >= 0 && (IsDigit(raw[k - 1]) || raw[k - 1] == '}') ==> ins == []
    ensures var placed := SlotsPlaced(raw, k, out + ins + [raw[k - 1]], offset + |ins|, SlotStep(m, raw[k - 1], k - 1, offset)); placed
  {
    if raw[k - 1] == '}' && m.start >= 0 {
      assert out + ins + [raw[k - 1]] == out + [raw[k - 1]];
      CloseSlotPlaced(raw, k, out, offset, m);
    } else {
      OtherSlotPlaced(raw, k, out, offset, m, ins);
    }
  }

  /** One step of the compiling loop keeps the slot facts. */
  lemma StepSlotsPlaced(raw: string, k: nat, s: Scanner)
    requires 0 < k <= |raw| && Sane(raw, k - 1, s)
    requires var placed := SlotsPlaced(raw, k - 1, s.out, s.offset, s.slot); placed
    ensures var t := Step(s, raw, k - 1); var placed := SlotsPlaced(raw, k, t.out, t.offset, t.slot); placed
  {
    if s.slot.start >= 0 && (IsDigit(raw[k - 1]) || raw[k - 1] == '}') {
      OpenSlotNoInsertion(raw, k, s);
    }
    SlotStepPlaced(raw, k, s.out, s.offset, s.slot, TagStep(s.tag, raw, k - 1).1);
    StepPlacedFields(raw, k, s);
  }

  /** The slot facts about the pieces a step appends are the slot facts about the step. */
  lemma StepPlacedFields(raw: string, k: nat, s: Scanner)
    requires 0 < k <= |raw| && Sane(raw, k - 1, s)
    requires var ins := TagStep(s.tag, raw, k - 1).1;
      var placed := SlotsPlaced(raw, k, s.out + ins + [raw[k - 1]], s.offset + |ins|, SlotStep(s.slot, raw[k - 1], k - 1, s.offset));
      placed
    ensures var t := Step(s, raw, k - 1); var placed := SlotsPlaced(raw, k, t.out, t.offset, t.slot); placed
  {
  }

  /** The text a closing `}` spans in the output is the candidate's raw text and the `}`. */
  lemma ClosedSlotText(raw: string, k: nat, out: string, offset: nat, start: nat)
    requires 0 < k <= |raw| && start < k && |out| == k - 1 + offset
    requires out[start + offset..] == raw[start..k - 1]
    ensures (out + [raw[k - 1]])[start + offset..k + offset] == raw[start..k]
  {
    var c := raw[k - 1];
    assert (out + [c])[start + offset..] == out[start + offset..] + [c];
    assert raw[start..k] == raw[start..k - 1] + [c];
  }

  /** The slot a closing `}` records covers the candidate's `{`, digits and `}`. */
  lemma ClosedSlotWellPlaced(raw: string, k: nat, out: string, offset: nat, start: nat, target: nat)
    requires 0 < k <= |raw| && start < k - 1 && |out| == k - 1 + offset
    requires raw[start] == '{' && raw[k - 1] == '}' && AllDigits(raw[start + 1..k - 1])
    requires out[start + offset..] == raw[start..k - 1]
    requires k - 1 - start > 1 ==> target == ParseNat(raw[start + 1..k - 1])
    ensures WellPlaced(out + [raw[k - 1]], NewArgument(start + offset, k - 1 + offset, target))
  {
    var out' := out + [raw[k - 1]];
    var a := NewArgument(start + offset, k - 1 + offset, target);
    ClosedSlotText(raw, k, out, offset, start);
    var text := out'[a.start..a.end];
    assert out'[a.start + 1..a.end - 1] == text[1..|text| - 1] == raw[start + 1..k - 1];
    assert out'[a.start] == text[0] && out'[a.end - 1] == text[|text| - 1];
  }

  /** Appending a well-placed slot keeps every slot well placed. */
  lemma AppendWellPlaced(text: string, args: seq<Argument>, a: Argument)
    requires forall n :: 0 <= n < |args| ==> WellPlaced(text, args[n])
    requires WellPlaced(text, a)
    ensures forall n :: 0 <= n < |args + [a]| ==> WellPlaced(text, (args + [a])[n])
  {
    forall n | 0 <= n < |args + [a]|
      ensures WellPlaced(text, (args + [a])[n])
    {
      if n < |args| {
        assert (args + [a])[n] == args[n];
      }
    }
  }

  /** Appending a slot that starts after every other one ends keeps the slots ascending. */
  lemma AppendAscending(args: seq<Argument>, a: Argument)
    requires Ascending(args)
    requires forall n :: 0 <= n < |args| ==> args[n].end <= a.start
    ensures Ascending(args + [a])
  {
    var args' := args + [a];
    forall m, n | 0 <= m < n < |args'|
      ensures args'[m].end <= args'[n].start
    {
      assert args'[m] == args[m];
      if n < |args| {
        assert args'[n] == args[n];
      }
    }
  }

  /** Appending a slot that, when empty, targets the count of empty slots before it keeps
      the automatic numbering. */
  lemma AppendNumbered(args: seq<Argument>, a: Argument)
    requires AutoNumbered(args)
    requires a.length == 2 ==> a.target == EmptyCount(args)
    ensures AutoNumbered(args + [a])
    ensures EmptyCount(args + [a]) == EmptyCount(args) + (if a.length == 2 then 1 else 0)
  {
    var args' := args + [a];
    assert args'[..|args|] == args;
    forall n | 0 <= n < |args'| && args'[n].length == 2
      ensures args'[n].target == EmptyCount(args'[..n])
    {
      if n < |args| {
        assert args'[..n] == args[..n];
      }
    }
  }

  /** With no open candidate, the slot facts are the facts about the recorded slots alone. */
  lemma ClosedMachinePlaced(raw: string, k: nat, out: string, offset: nat, args: seq<Argument>, currentArg: nat)
    requires k <= |raw|
    requires forall n :: 0 <= n < |args| ==> WellPlaced(out, args[n])
    requires Ascending(args) && AutoNumbered(args)
    requires forall n :: 0 <= n < |args| ==> args[n].end <= |out|
    requires currentArg == EmptyCount(args)
    ensures var placed := SlotsPlaced(raw, k, out, offset, SlotMachine(args, currentArg, -1, [])); placed
  { }

  /** A `}` that closes an open candidate records a well-placed slot. */
  lemma CloseSlotPlaced(raw: string, k: nat, out: string, offset: nat, m: SlotMachine)
    requires 0 < k <= |raw| && SlotSane(raw, k - 1, m) && |out| == k - 1 + offset
    requires SlotsPlaced(raw, k - 1, out, offset, m)
    requires raw[k - 1] == '}' && m.start >= 0
    ensures var placed := SlotsPlaced(raw, k, out + [raw[k - 1]], offset, SlotStep(m, raw[k - 1], k - 1, offset)); placed
  {
    var c := raw[k - 1];
    var out' := out + [c];
    var target := if m.number == [] then m.currentArg else ParseNat(m.number);
    var a := NewArgument(m.start + offset, k - 1 + offset, target);
    ClosedSlotWellPlaced(raw, k, out, offset, m.start, target);
    ExtendKeepsPlaced(out, [c], m.args);
    AppendWellPlaced(out', m.args, a);
    AppendAscending(m.args, a);
    AppendNumbered(m.args, a);
    var m' := SlotMachine(m.args + [a], if m.number == [] then m.currentArg + 1 else m.currentArg, -1, []);
    ClosedMachinePlaced(raw, k, out', offset, m'.args, m'.currentArg);
    assert SlotStep(m, c, k - 1, offset) == m';
  }

  /** The recorded slots stay well placed, ascending and numbered when the output grows. */
  lemma RecordedSlotsKept(raw: string, k: nat, out: string, offset: nat, m: SlotMachine, t: string)
    requires 0 < k <= |raw| && |out| == k - 1 + offset
    requires SlotsPlaced(raw, k - 1, out, offset, m)
    ensures forall n :: 0 <= n < |m.args| ==> WellPlaced(out + t, m.args[n])
    ensures forall n :: 0 <= n < |m.args| ==> m.args[n].end <= |out|
  {
    ExtendKeepsPlaced(out, t, m.args);
  }

  /** Every other step leaves the recorded slots alone and moves the frontier forward. */
  lemma OtherSlotPlaced(raw: string, k: nat, out: string, offset: nat, m: SlotMachine, ins: string)
    requires 0 < k <= |raw| && SlotSane(raw, k - 1, m) && |out| == k - 1 + offset
    requires SlotsPlaced(raw, k - 1, out, offset, m)
    requires m.start >= 0 && IsDigit(raw[k - 1]) ==> ins == []
    requires !(raw[k - 1] == '}' && m.start >= 0)
    ensures var placed := SlotsPlaced(raw, k, out + ins + [raw[k - 1]], offset + |ins|, SlotStep(m, raw[k - 1], k - 1, offset)); placed
  {
    var c := raw[k - 1];
    if c == '{' {
      OpenBracePlaced(raw, k, out, offset, m, ins);
    } else if m.start >= 0 && IsDigit(c) {
      assert out + ins + [c] == out + [c];
      DigitPlaced(raw, k, out, offset, m);
    } else {
      PlainPlaced(raw, k, out, offset, m, ins);
    }
  }

  /** Any other character leaves no candidate open and records nothing. */
  lemma PlainPlaced(raw: string, k: nat, out: string, offset: nat, m: SlotMachine, ins: string)
    requires 0 < k <= |raw| && SlotSane(raw, k - 1, m) && |out| == k - 1 + offset
    requires SlotsPlaced(raw, k - 1, out, offset, m)
    requires raw[k - 1] != '{' && !(m.start >= 0 && (IsDigit(raw[k - 1]) || raw[k - 1] == '}'))
    ensures var placed := SlotsPlaced(raw, k, out + ins + [raw[k - 1]], offset + |ins|, SlotStep(m, raw[k - 1], k - 1, offset)); placed
  {
    var c := raw[k - 1];
    var m' := SlotStep(m, c, k - 1, offset);
    assert m'.args == m.args && m'.currentArg == m.currentArg && m'.start == -1;
    RecordedSlotsKept(raw, k, out, offset, m, ins + [c]);
    assert out + ins + [c] == out + (ins + [c]);
  }

  /** A `{` opens a new candidate whose text is the `{` just copied. */
  lemma OpenBracePlaced(raw: string, k: nat, out: string, offset: nat, m: SlotMachine, ins: string)
    requires 0 < k <= |raw| && SlotSane(raw, k - 1, m) && |out| == k - 1 + offset
    requires SlotsPlaced(raw, k - 1, out, offset, m)
    requires raw[k - 1] == '{'
    ensures var placed := SlotsPlaced(raw, k, out + ins + [raw[k - 1]], offset + |ins|, SlotStep(m, raw[k - 1], k - 1, offset)); placed
  {
    var c := raw[k - 1];
    var out' := out + ins + [c];
    var m' := SlotStep(m, c, k - 1, offset);
    assert m'.args == m.args && m'.currentArg == m.currentArg && m'.start == k - 1;
    RecordedSlotsKept(raw, k, out, offset, m, ins + [c]);
    assert out' == out + (ins + [c]);
    assert out'[k - 1 + offset + |ins|..] == [c] == raw[k - 1..k];
  }

  /** A digit extends the open candidate, in the input and in the output alike. */
  lemma DigitPlaced(raw: string, k: nat, out: string, offset: nat, m: SlotMachine)
    requires 0 < k <= |raw| && SlotSane(raw, k - 1, m) && |out| == k - 1 + offset
    requires SlotsPlaced(raw, k - 1, out, offset, m)
    requires m.start >= 0 && IsDigit(raw[k - 1])
    ensures SlotsPlaced(raw, k, out + [raw[k - 1]], offset, SlotStep(m, raw[k - 1], k - 1, offset))
  {
    var c := raw[k - 1];
    var m' := SlotStep(m, c, k - 1, offset);
    assert m'.args == m.args && m'.currentArg == m.currentArg && m'.start == m.start;
    ExtendKeepsPlaced(out, [c], m.args);
    var base := m.start + offset;
    assert (out + [c])[base..] == out[base..] + [c];
    assert raw[m.start..k] == raw[m.start..k - 1] + [c];
  }

  /** Inside an open candidate only digits and `}` follow, and no quote is inserted before them. */
  lemma OpenSlotNoInsertion(raw: string, k: nat, s: Scanner)
    requires 0 < k <= |raw| && Sane(raw, k - 1, s)
    requires s.slot.start >= 0 && (IsDigit(raw[k - 1]) || raw[k - 1] == '}')
    ensures TagStep(s.tag, raw, k - 1).1 == []
  {
    TagStepSane(raw, k, s.tag);
    if s.slot.start < k - 2 {
      assert raw[k - 2] == s.slot.number[k - 3 - s.slot.start];
    }
  }
}
