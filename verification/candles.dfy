/**
 The candle registry, reduced to what the widget's logic observes: an
 ordered sequence of candles, each either lit or blown out. Positions only
 matter for drawing and for the share link's point token, neither of which
 is part of this model.
 */
module Candles {

  /** A candle is lit until its flame goes out; it is never relit. */
  datatype Candle = Lit | Out

  /** The number of lit candles: the length of the `filter` on candles without the "out" class. */
  function ActiveCount(cs: seq<Candle>): (n: nat)
    ensures n <= |cs|
    decreases |cs|
  {
    if cs == [] then 0 else (if cs[0].Lit? then 1 else 0) + ActiveCount(cs[1..])
  }

  /** No candle is lit exactly when the count is zero, and all are exactly when it is the length. */
  lemma {:induction false} ActiveCountExtremes(cs: seq<Candle>)
    ensures ActiveCount(cs) == 0 <==> forall i :: 0 <= i < |cs| ==> cs[i].Out?
    ensures ActiveCount(cs) == |cs| <==> forall i :: 0 <= i < |cs| ==> cs[i].Lit?
    decreases |cs|
  {
    if cs != [] {
      ActiveCountExtremes(cs[1..]);
      assert forall i :: 1 <= i < |cs| ==> cs[i] == cs[1..][i - 1];
    }
  }

  /** Counting lit candles distributes over concatenation. */
  lemma {:induction false} ActiveCountAppend(a: seq<Candle>, b: seq<Candle>)
    ensures ActiveCount(a + b) == ActiveCount(a) + ActiveCount(b)
    decreases |a|
  {
    if a != [] {
      assert (a + b)[0] == a[0];
      assert (a + b)[1..] == a[1..] + b;
      ActiveCountAppend(a[1..], b);
    } else {
      assert a + b == b;
    }
  }

  /** `n` lit candles. */
  function LitCandles(n: nat): (r: seq<Candle>)
    ensures |r| == n && ActiveCount(r) == n
  {
    var r := seq(n, _ => Lit);
    ActiveCountExtremes(r);
    r
  }

  /** The candles after one blow, and how many of them went out. */
  datatype Blow = Blow(candles: seq<Candle>, blownOut: nat)

  /**
   The `forEach` of one blow: each candle that is still lit takes the next
   draw and goes out when the draw is true (`Math.random() > 0.5`); candles
   already out take no draw, because the `&&` does not evaluate its right side.
   */
  function Extinguish(cs: seq<Candle>, draws: seq<bool>): (b: Blow)
    requires |draws| >= ActiveCount(cs)
    ensures |b.candles| == |cs|
    ensures forall i :: 0 <= i < |cs| && cs[i].Out? ==> b.candles[i].Out?
    ensures ActiveCount(b.candles) + b.blownOut == ActiveCount(cs)
    decreases |cs|
  {
    if cs == [] then Blow([], 0)
    else
      var first := if cs[0].Lit? && draws[0] then Out else cs[0];
      var rest := Extinguish(cs[1..], if cs[0].Lit? then draws[1..] else draws);
      var b := Blow([first] + rest.candles, rest.blownOut + if first != cs[0] then 1 else 0);
      assert b.candles[1..] == rest.candles;
      assert forall i :: 1 <= i < |cs| ==> cs[i] == cs[1..][i - 1] && b.candles[i] == rest.candles[i - 1];
      b
  }

  /** Lit candles before position `i` bound the index of the draw candle `i` consumes. */
  lemma {:induction false} LitPrefixBound(cs: seq<Candle>, i: nat)
    requires i < |cs|
    ensures ActiveCount(cs[..i]) + (if cs[i].Lit? then 1 else 0) <= ActiveCount(cs)
    decreases i
  {
    if i == 0 {
      assert cs[..0] == [];
    } else {
      LitPrefixBound(cs[1..], i - 1);
      PrefixCountStep(cs, i);
      assert cs[1..][i - 1] == cs[i];
    }
  }

  /**
   Candle `i` after a blow: a candle already out stays out; a lit candle goes
   out exactly when its draw is true, and its draw is the one numbered by the
   lit candles in front of it.
   */
  lemma {:induction false} ExtinguishAt(cs: seq<Candle>, draws: seq<bool>, i: nat)
    requires |draws| >= ActiveCount(cs)
    requires i < |cs|
    ensures ActiveCount(cs[..i]) + (if cs[i].Lit? then 1 else 0) <= ActiveCount(cs)
    ensures Extinguish(cs, draws).candles[i] ==
            if cs[i].Out? then Out else if draws[ActiveCount(cs[..i])] then Out else Lit
    decreases i
  {
    LitPrefixBound(cs, i);
    if i > 0 {
      ExtinguishAt(cs[1..], if cs[0].Lit? then draws[1..] else draws, i - 1);
      ExtinguishAtStep(cs, draws, i);
    }
  }

  /** The step of `ExtinguishAt`: what holds for position `i - 1` of the tail holds for position `i`. */
  lemma ExtinguishAtStep(cs: seq<Candle>, draws: seq<bool>, i: nat)
    requires |draws| >= ActiveCount(cs)
    requires 0 < i < |cs|
    requires var tail := if cs[0].Lit? then draws[1..] else draws;
             && |tail| >= ActiveCount(cs[1..])
             && ActiveCount(cs[1..][..i - 1]) + (if cs[i].Lit? then 1 else 0) <= ActiveCount(cs[1..])
             && Extinguish(cs[1..], tail).candles[i - 1] ==
                if cs[i].Out? then Out else if tail[ActiveCount(cs[1..][..i - 1])] then Out else Lit
    ensures ActiveCount(cs[..i]) + (if cs[i].Lit? then 1 else 0) <= ActiveCount(cs)
    ensures Extinguish(cs, draws).candles[i] ==
            if cs[i].Out? then Out else if draws[ActiveCount(cs[..i])] then Out else Lit
  {
    var tail := if cs[0].Lit? then draws[1..] else draws;
    var k := ActiveCount(cs[1..][..i - 1]);
    PrefixCountStep(cs, i);
    ExtinguishStep(cs, draws, i);
    if cs[0].Lit? && cs[i].Lit? {
      assert tail[k] == draws[k + 1];
    }
  }

  /** Behind the first candle, a blow acts on the tail with the draws the first candle left over. */
  lemma ExtinguishStep(cs: seq<Candle>, draws: seq<bool>, i: nat)
    requires |draws| >= ActiveCount(cs)
    requires 0 < i < |cs|
    ensures |draws| >= (if cs[0].Lit? then 1 else 0)
    ensures Extinguish(cs, draws).candles[i]
            == Extinguish(cs[1..], if cs[0].Lit? then draws[1..] else draws).candles[i - 1]
  {
  }

  /** The lit candles in front of position `i` are the first candle's share plus those in front of it in the tail. */
  lemma PrefixCountStep(cs: seq<Candle>, i: nat)
    requires 0 < i <= |cs|
    ensures ActiveCount(cs[..i]) == (if cs[0].Lit? then 1 else 0) + ActiveCount(cs[1..][..i - 1])
  {
    assert cs[..i][1..] == cs[1..][..i - 1];
    assert cs[..i][0] == cs[0];
  }
}
