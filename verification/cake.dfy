/**
 The widget's state and the operations that change it: placing a candle,
 refreshing the displayed count, clearing the cake, one tick of the blow
 detector, and replaying a number of candles from a shared link. The page's
 global variables become one immutable record; every operation returns the
 next record.
 */
module Cake {
  import opened Candles
  import opened Audio

  datatype Flavor = Chocolate | Vanilla

  /**
   The candles in placement order, the custom message, the flavour (the
   cake's "vanilla" class and the flavour select), the number the candle
   count label shows, and the fragment of the page address.
   */
  datatype Widget = Widget(candles: seq<Candle>, message: string, flavor: Flavor, shown: nat, hash: string)

  /** The label shows the true number of lit candles. */
  predicate Synced(w: Widget) {
    w.shown == ActiveCount(w.candles)
  }

  /** The page before any interaction: no candles, no message, chocolate, a count of zero, no fragment. */
  const Initial: Widget := Widget([], "", Chocolate, 0, "")

  /** `updateCandleCount`: the label is set to the number of lit candles; nothing else changes. */
  function UpdateCandleCount(w: Widget): (r: Widget)
    ensures Synced(r)
    ensures r.candles == w.candles && r.message == w.message && r.flavor == w.flavor && r.hash == w.hash
    ensures Synced(w) ==> r == w
  {
    w.(shown := ActiveCount(w.candles))
  }

  /** `addCandle`: a lit candle is appended after all existing ones and the label is refreshed. */
  function AddCandle(w: Widget): (r: Widget)
    ensures |r.candles| == |w.candles| + 1
    ensures r.candles[..|w.candles|] == w.candles && r.candles[|w.candles|] == Lit
    ensures ActiveCount(r.candles) == ActiveCount(w.candles) + 1
    ensures Synced(r)
    ensures r.message == w.message && r.flavor == w.flavor && r.hash == w.hash
  {
    ActiveCountAppend(w.candles, [Lit]);
    UpdateCandleCount(w.(candles := w.candles + [Lit]))
  }

  /** `resetCandles`: no candles, a count of zero, no message and no fragment; the flavour stays. */
  function ResetCandles(w: Widget): (r: Widget)
    ensures r.candles == [] && ActiveCount(r.candles) == 0 && Synced(r)
    ensures r.message == ""
    ensures r.hash == ""
    ensures r.flavor == w.flavor
  {
    UpdateCandleCount(w.(candles := [])).(message := "", hash := "")
  }

  /** `restoreCandles`: `n` candles placed one after another, then the label refreshed once more. */
  function RestoreCandles(w: Widget, n: nat): (r: Widget)
    ensures r.candles == w.candles + LitCandles(n)
    ensures ActiveCount(r.candles) == ActiveCount(w.candles) + n
    ensures Synced(r)
    ensures r.message == w.message && r.flavor == w.flavor && r.hash == w.hash
    decreases n
  {
    if n == 0 then
      assert w.candles + LitCandles(0) == w.candles;
      UpdateCandleCount(w)
    else
      var r := RestoreCandles(AddCandle(w), n - 1);
      assert [Lit] + LitCandles(n - 1) == LitCandles(n);
      assert w.candles + [Lit] + LitCandles(n - 1) == w.candles + LitCandles(n);
      ActiveCountAppend(w.candles, LitCandles(n));
      r
  }

  /** The widget after one tick of the blow detector, and the number of candles that went out. */
  datatype Tick = Tick(after: Widget, blownOut: nat)

  /**
   `blowOutCandles`: when the frame is loud, every lit candle takes a draw
   and goes out on a true one; the label is refreshed only when at least one
   candle went out.
   */
  function BlowOutCandles(w: Widget, samples: seq<Byte>, draws: seq<bool>): (t: Tick)
    requires |draws| >= ActiveCount(w.candles)
    ensures |t.after.candles| == |w.candles|
    ensures forall i :: 0 <= i < |w.candles| && w.candles[i].Out? ==> t.after.candles[i].Out?
    ensures ActiveCount(t.after.candles) + t.blownOut == ActiveCount(w.candles)
    ensures Loud(samples) ==> t.after.candles == Extinguish(w.candles, draws).candles
                              && t.blownOut == Extinguish(w.candles, draws).blownOut
    ensures !Loud(samples) ==> t.after == w && t.blownOut == 0
    ensures t.blownOut == 0 ==> t.after == w
    ensures t.blownOut > 0 ==> Synced(t.after)
    ensures Synced(w) ==> Synced(t.after)
    ensures t.after.message == w.message && t.after.flavor == w.flavor && t.after.hash == w.hash
  {
    var b := if Loud(samples) then Extinguish(w.candles, draws) else Blow(w.candles, 0);
    if b.blownOut > 0 then
      Tick(UpdateCandleCount(w.(candles := b.candles)), b.blownOut)
    else
      SameCountSameCandles(w.candles, b.candles);
      Tick(w.(candles := b.candles), 0)
  }

  /**
   Candle `i` after a loud tick: a candle already out stays out, and a lit
   candle goes out exactly when the draw numbered by the lit candles in front
   of it is true.
   */
  lemma BlowOutCandleAt(w: Widget, samples: seq<Byte>, draws: seq<bool>, i: nat)
    requires |draws| >= ActiveCount(w.candles)
    requires Loud(samples) && i < |w.candles|
    ensures ActiveCount(w.candles[..i]) + (if w.candles[i].Lit? then 1 else 0) <= ActiveCount(w.candles)
    ensures BlowOutCandles(w, samples, draws).after.candles[i] ==
            if w.candles[i].Out? then Out else if draws[ActiveCount(w.candles[..i])] then Out else Lit
  {
    ExtinguishAt(w.candles, draws, i);
  }

  /** Putting candles out without changing how many are lit changes nothing. */
  lemma {:induction false} SameCountSameCandles(before: seq<Candle>, after: seq<Candle>)
    requires |after| == |before|
    requires forall i :: 0 <= i < |before| && before[i].Out? ==> after[i].Out?
    requires ActiveCount(after) == ActiveCount(before)
    ensures after == before
    decreases |before|
  {
    if before != [] {
      assert forall i :: 0 <= i < |before[1..]| ==> before[1..][i] == before[i + 1] && after[1..][i] == after[i + 1];
      if before[0].Lit? && after[0].Out? {
        // The rest would need one more lit candle after the blow than before it.
        NeverRelitBound(before[1..], after[1..]);
        assert false;
      }
      SameCountSameCandles(before[1..], after[1..]);
      assert after == [after[0]] + after[1..];
    }
  }

  /** A blow that relights nothing leaves at most as many candles lit. */
  lemma {:induction false} NeverRelitBound(before: seq<Candle>, after: seq<Candle>)
    requires |after| == |before|
    requires forall i :: 0 <= i < |before| && before[i].Out? ==> after[i].Out?
    ensures ActiveCount(after) <= ActiveCount(before)
    decreases |before|
  {
    if before != [] {
      assert forall i :: 0 <= i < |before[1..]| ==> before[1..][i] == before[i + 1] && after[1..][i] == after[i + 1];
      NeverRelitBound(before[1..], after[1..]);
    }
  }

  /**
   The detector's timer firing once per frame: the widget after a run of
   ticks, each with its own frame and draws.
   */
  function Run(w: Widget, frames: seq<seq<Byte>>, draws: seq<seq<bool>>): (r: Widget)
    requires |draws| == |frames|
    requires forall k :: 0 <= k < |draws| ==> |draws[k]| >= |w.candles|
    ensures |r.candles| == |w.candles|
    ensures ActiveCount(r.candles) <= ActiveCount(w.candles)
    ensures Synced(w) ==> Synced(r)
    ensures (forall k :: 0 <= k < |frames| ==> !Loud(frames[k])) ==> r == w
    ensures r.message == w.message && r.flavor == w.flavor && r.hash == w.hash
    decreases |frames|
  {
    if frames == [] then w
    else
      var t := BlowOutCandles(w, frames[0], draws[0]);
      assert forall k :: 0 <= k < |draws[1..]| ==> draws[1..][k] == draws[k + 1];
      assert forall k :: 0 <= k < |frames[1..]| ==> frames[1..][k] == frames[k + 1];
      Run(t.after, frames[1..], draws[1..])
  }
}
