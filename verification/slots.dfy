/** Where argument slots are in a raw template, read directly off the input: a `{`, then
    only digits, then `}`. This is the reference the compiler's slot detection is held to. */
module Slots {
  import opened Wrappers
  import opened Chars

  /** A `{digits}` occurrence in the raw template: the positions of its two braces. */
  datatype Span = Span(open: nat, close: nat)

  /** The `{` of the candidate slot still open after the first `k` characters, if any:
      the nearest `{` followed only by digits up to position `k`. */
  function OpenBrace(raw: string, k: nat): (r: Option<nat>)
    requires k <= |raw|
    ensures r.Some? ==> r.value < k && raw[r.value] == '{'
    decreases k
  {
    if k == 0 then None
    else if raw[k - 1] == '{' then Some(k - 1)
    else if IsDigit(raw[k - 1]) then OpenBrace(raw, k - 1)
    else None
  }

  /** `OpenBrace` names position `j` exactly when a `{` at `j` is followed only by digits. */
  lemma {:induction false} OpenBraceSpec(raw: string, k: nat, j: nat)
    requires j < k <= |raw|
    ensures OpenBrace(raw, k) == Some(j) <==> raw[j] == '{' && AllDigits(raw[j + 1..k])
    decreases k
  {
    if raw[k - 1] == '{' {
      if j < k - 1 {
        assert raw[j + 1..k][k - 2 - j] == '{';
      }
    } else if IsDigit(raw[k - 1]) {
      if j < k - 1 {
        OpenBraceSpec(raw, k - 1, j);
        var before, after := raw[j + 1..k - 1], raw[j + 1..k];
        assert after == before + [raw[k - 1]];
        assert AllDigits(after) ==> AllDigits(before) by {
          forall p | 0 <= p < |before| && AllDigits(after)
            ensures IsDigit(before[p])
          {
            assert before[p] == after[p];
          }
        }
      }
    } else if j < k - 1 {
      assert raw[j + 1..k][k - 2 - j] == raw[k - 1];
    }
  }

  /** The `{digits}` occurrences among the first `k` characters, in the order their `}` appears. */
  function RawSlots(raw: string, k: nat): (spans: seq<Span>)
    requires k <= |raw|
    ensures forall n :: 0 <= n < |spans| ==>
      spans[n].open < spans[n].close < k && raw[spans[n].open] == '{' && raw[spans[n].close] == '}'
    decreases k
  {
    if k == 0 then []
    else
      var o := OpenBrace(raw, k - 1);
      RawSlots(raw, k - 1) + (if raw[k - 1] == '}' && o.Some? then [Span(o.value, k - 1)] else [])
  }

  /** A span is listed exactly when it is a `{`, digits only, and a `}`. */
  lemma {:induction false} RawSlotsSpec(raw: string, k: nat, sp: Span)
    requires k <= |raw|
    ensures sp in RawSlots(raw, k) <==>
      sp.open < sp.close < k && raw[sp.open] == '{' && raw[sp.close] == '}' && AllDigits(raw[sp.open + 1..sp.close])
    decreases k
  {
    if k > 0 {
      RawSlotsSpec(raw, k - 1, sp);
      if sp.close == k - 1 && sp.open < sp.close {
        OpenBraceSpec(raw, k - 1, sp.open);
      }
    }
  }

  /** No `}` lies strictly between a `{` at `o` and position `e` when only digits follow it. */
  lemma DigitsHoldNoBrace(raw: string, o: nat, e: nat)
    requires o < e <= |raw| && AllDigits(raw[o + 1..e])
    ensures forall c :: o < c < e ==> raw[c] != '}'
  {
    forall c | o < c < e
      ensures raw[c] != '}'
    {
      assert raw[o + 1..e][c - o - 1] == raw[c];
    }
  }

  /** The listed spans come in strictly increasing order and never overlap. */
  lemma {:induction false} RawSlotsAscending(raw: string, k: nat)
    requires k <= |raw|
    ensures forall m, n :: 0 <= m < n < |RawSlots(raw, k)| ==> RawSlots(raw, k)[m].close < RawSlots(raw, k)[n].open
    decreases k
  {
    if k > 0 {
      RawSlotsAscending(raw, k - 1);
      var prev := RawSlots(raw, k - 1);
      if raw[k - 1] == '}' && OpenBrace(raw, k - 1).Some? {
        var o := OpenBrace(raw, k - 1).value;
        OpenBraceSpec(raw, k - 1, o);
        DigitsHoldNoBrace(raw, o, k - 1);
      }
    }
  }
}
