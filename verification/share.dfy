/**
 The share link. Sharing writes the fragment `#c=<points>&m=<hex>&f=<flavour>`
 into the page address; loading a page with a fragment replays it onto the
 current widget. The key/value parsing of the fragment itself is done by the
 browser, so restoring starts from the three values it extracted.
 */
module Share {
  import opened Text
  import opened Hex
  import opened Candles
  import opened Cake

  datatype Option<T> = None | Some(value: T)

  /** The value of the flavour select for each flavour. */
  function FlavorName(f: Flavor): string {
    match f
    case Chocolate => "chocolate"
    case Vanilla => "vanilla"
  }

  /**
   `flavorSelect?.value || "chocolate"`: the select's value, or chocolate
   when the select is missing or its value is empty.
   */
  function SelectedFlavor(selected: Option<string>): (name: string)
    ensures name != ""
    ensures selected.Some? && selected.value != "" ==> name == selected.value
    ensures selected.None? || selected.value == "" ==> name == "chocolate"
  {
    if selected.Some? && selected.value != "" then selected.value else "chocolate"
  }

  /**
   The fragment the share button writes. `tokens` are the per-candle texts
   `encodeCandlePoints` maps the candles to, in candle order; they are joined
   with '-' as the source does.
   */
  function Fragment(tokens: seq<string>, message: string, selected: Option<string>): (h: string)
    ensures |h| >= 3 && h[..3] == "#c="
  {
    "#c=" + Join(tokens, '-') + "&m=" + ToHex(message) + "&f=" + SelectedFlavor(selected)
  }

  /**
   When neither the point text nor the flavour contains '&', the fragment
   after '#' splits on '&' into exactly the three fields `c=`, `m=` and `f=`,
   in that order, carrying the joined points, the hex message and the flavour.
   */
  lemma FragmentFields(tokens: seq<string>, message: string, selected: Option<string>)
    requires forall k :: 0 <= k < |tokens| ==> '&' !in tokens[k]
    requires '&' !in SelectedFlavor(selected)
    ensures Split(Fragment(tokens, message, selected)[1..], '&')
            == ["c=" + Join(tokens, '-'), "m=" + ToHex(message), "f=" + SelectedFlavor(selected)]
  {
    var c, m, f := "c=" + Join(tokens, '-'), "m=" + ToHex(message), "f=" + SelectedFlavor(selected);
    JoinAvoids(tokens, '-', '&');
    HexFieldAvoids(message);
    FieldsLayout(Join(tokens, '-'), ToHex(message), SelectedFlavor(selected));
    ThreeFields(c, m, f, '&');
  }

  /** The fragment after its '#' is the three key=value fields joined by '&'. */
  lemma FieldsLayout(points: string, hex: string, flavor: string)
    ensures ("#c=" + points + "&m=" + hex + "&f=" + flavor)[1..]
            == ("c=" + points) + ['&'] + ("m=" + hex) + ['&'] + ("f=" + flavor)
  {
    var tail := ("c=" + points) + ['&'] + ("m=" + hex) + ['&'] + ("f=" + flavor);
    assert "#c=" + points + "&m=" + hex + "&f=" + flavor == ['#'] + tail;
  }

  /** The message field never contains '&': hex digits are all letters and numbers. */
  lemma HexFieldAvoids(message: string)
    ensures '&' !in "m=" + ToHex(message)
  {
    LowerHexAvoids("m=", ToHex(message), '&');
  }

  /** A character that is not a hex digit and not in `key` is not in `key` followed by hex digits. */
  lemma LowerHexAvoids(key: string, hex: string, c: char)
    requires !IsLowerHexDigit(c) && c !in key
    requires forall i :: 0 <= i < |hex| ==> IsLowerHexDigit(hex[i])
    ensures c !in key + hex
  {
    forall i | 0 <= i < |key + hex|
      ensures (key + hex)[i] != c
    {
      if i >= |key| {
        assert (key + hex)[i] == hex[i - |key|];
      }
    }
  }

  /** Three pieces free of the separator, joined by it, split back into themselves. */
  lemma ThreeFields(c: string, m: string, f: string, sep: char)
    requires sep !in c && sep !in m && sep !in f
    ensures Split(c + [sep] + m + [sep] + f, sep) == [c, m, f]
  {
    assert c + [sep] + m + [sep] + f == c + [sep] + (m + [sep] + f);
    SplitAfterPiece(c, sep, m + [sep] + f);
    SplitAfterPiece(m, sep, f);
    SplitNoSeparator(f, sep);
  }

  /** Pressing the share button: the fragment replaces the page address's; nothing else changes. */
  function Share(w: Widget, tokens: seq<string>, selected: Option<string>): (r: Widget)
    ensures r.hash == Fragment(tokens, w.message, selected)
    ensures |r.hash| >= 3 && r.hash[..3] == "#c="
    ensures r.candles == w.candles && r.message == w.message && r.flavor == w.flavor && r.shown == w.shown
  {
    w.(hash := Fragment(tokens, w.message, selected))
  }

  /** The page address's fragment: absent, or present with the `c`, `m` and `f` values the browser extracted. */
  datatype Location = NoHash | Hash(c: Option<string>, m: Option<string>, f: Option<string>)

  /** The name of a `name=value` field: everything before its first '='. */
  function FieldName(field: string): string {
    Split(field, '=')[0]
  }

  /** The value of a `name=value` field: everything after its first '=', or nothing without one. */
  function FieldValue(field: string): string {
    Join(Split(field, '=')[1..], '=')
  }

  /** A field written as `key=value`, with no '=' in either, reads back as that name and value. */
  lemma KeyValueField(key: string, value: string)
    requires '=' !in key && '=' !in value
    ensures FieldName(key + "=" + value) == key && FieldValue(key + "=" + value) == value
  {
    SplitAfterPiece(key, '=', value);
    SplitNoSeparator(value, '=');
  }

  /** `params.get(key)`: the value of the first field named `key`, if any. */
  function Param(fields: seq<string>, key: string): (v: Option<string>)
    ensures v.None? <==> forall k :: 0 <= k < |fields| ==> FieldName(fields[k]) != key
    ensures v.Some? ==> exists k :: 0 <= k < |fields| && FieldName(fields[k]) == key && v.value == FieldValue(fields[k])
                                    && forall j :: 0 <= j < k ==> FieldName(fields[j]) != key
    decreases |fields|
  {
    if fields == [] then None
    else if FieldName(fields[0]) == key then Some(FieldValue(fields[0]))
    else
      var v := Param(fields[1..], key);
      assert forall k :: 1 <= k < |fields| ==> fields[k] == fields[1..][k - 1];
      v
  }

  /**
   How `restoreFromHash` reads `location.hash`: an empty fragment is no
   fragment; otherwise the text after the '#' is split into '&'-separated
   fields and `c`, `m` and `f` are looked up among them.
   */
  function ParseFragment(hash: string): (loc: Location)
    ensures loc.NoHash? <==> |hash| <= 1
  {
    if |hash| <= 1 then NoHash
    else
      var fields := Split(hash[1..], '&');
      Hash(Param(fields, "c"), Param(fields, "m"), Param(fields, "f"))
  }

  /**
   `restoreFromHash`: a nonempty `c` adds one lit candle per '-'-separated
   piece after the existing candles; a nonempty `m` replaces the message with
   its decoding; the flavour becomes vanilla for `f=vanilla` and chocolate for
   anything else, including a missing `f`. Without a fragment nothing changes.
   */
  function Restore(w: Widget, loc: Location): (r: Widget)
    requires loc.Hash? && loc.m.Some? ==> IsHexText(loc.m.value)
    ensures loc.NoHash? ==> r == w
    ensures loc.Hash? ==> (r.flavor == Vanilla <==> loc.f == Some("vanilla"))
    ensures loc.Hash? && loc.c.Some? && loc.c.value != "" ==>
              r.candles == w.candles + LitCandles(1 + Occurrences(loc.c.value, '-')) && Synced(r)
    ensures (loc.NoHash? || loc.c.None? || loc.c.value == "") ==> r.candles == w.candles && r.shown == w.shown
    ensures loc.Hash? && loc.m.Some? && loc.m.value != "" ==> r.message == FromHex(loc.m.value)
    ensures (loc.NoHash? || loc.m.None? || loc.m.value == "") ==> r.message == w.message
    ensures r.hash == w.hash
  {
    match loc
    case NoHash => w
    case Hash(c, m, f) =>
      var w1 := if c.Some? && c.value != "" then
          SplitPieces(c.value, '-');
          RestoreCandles(w, |Split(c.value, '-')|)
        else w;
      var w2 := if m.Some? && m.value != "" then w1.(message := FromHex(m.value)) else w1;
      w2.(flavor := if f == Some("vanilla") then Vanilla else Chocolate)
  }

  /**
   The point text of `n` nonempty '-'-free tokens is empty exactly when
   there are none, and otherwise has `n - 1` separators.
   */
  lemma JoinedPointCount(tokens: seq<string>)
    requires forall k :: 0 <= k < |tokens| ==> tokens[k] != "" && '-' !in tokens[k]
    ensures Join(tokens, '-') == "" <==> |tokens| == 0
    ensures |tokens| > 0 ==> 1 + Occurrences(Join(tokens, '-'), '-') == |tokens|
  {
    if |tokens| > 0 {
      JoinStartsWithFirst(tokens, '-');
      SplitJoin(tokens, '-');
      SplitPieces(Join(tokens, '-'), '-');
    }
  }

  /** The location a shared fragment yields once the browser has split it into its values. */
  function SharedLocation(tokens: seq<string>, message: string, selected: Option<string>): Location {
    Hash(Some(Join(tokens, '-')), Some(ToHex(message)), Some(SelectedFlavor(selected)))
  }

  /**
   Reading back the fragment the share button wrote gives the joined points,
   the hex message and the flavour as the `c`, `m` and `f` values.
   */
  lemma ShareParses(w: Widget, tokens: seq<string>, selected: Option<string>)
    requires forall k :: 0 <= k < |tokens| ==> '&' !in tokens[k] && '=' !in tokens[k]
    requires '&' !in SelectedFlavor(selected) && '=' !in SelectedFlavor(selected)
    ensures ParseFragment(Share(w, tokens, selected).hash) == SharedLocation(tokens, w.message, selected)
  {
    var points, hex, flavor := Join(tokens, '-'), ToHex(w.message), SelectedFlavor(selected);
    FragmentFields(tokens, w.message, selected);
    JoinAvoids(tokens, '-', '=');
    LowerHexAvoids("", hex, '=');
    assert "" + hex == hex;
    ThreeParams(points, hex, flavor);
  }

  /** The three fields the share button writes are found under their own names. */
  lemma ThreeParams(points: string, hex: string, flavor: string)
    requires '=' !in points && '=' !in hex && '=' !in flavor
    ensures var fields := ["c=" + points, "m=" + hex, "f=" + flavor];
            Param(fields, "c") == Some(points) && Param(fields, "m") == Some(hex) && Param(fields, "f") == Some(flavor)
  {
    var fields := ["c=" + points, "m=" + hex, "f=" + flavor];
    KeyValueField("c", points);
    KeyValueField("m", hex);
    KeyValueField("f", flavor);
    assert "c" + "=" + points == fields[0] && "m" + "=" + hex == fields[1] && "f" + "=" + flavor == fields[2];
    assert fields[1..][1..] == [fields[2]];
  }

  /** Restoring a shared fragment appends one lit candle per shared candle token. */
  lemma RestoreSharedCandles(w: Widget, tokens: seq<string>, selected: Option<string>, target: Widget)
    requires forall k :: 0 <= k < |tokens| ==> tokens[k] != "" && '-' !in tokens[k]
    requires IsByteString(w.message)
    ensures IsHexText(ToHex(w.message))
    ensures Restore(target, SharedLocation(tokens, w.message, selected)).candles
            == target.candles + LitCandles(|tokens|)
  {
    FromHexToHex(w.message);
    JoinedPointCount(tokens);
    var loc := SharedLocation(tokens, w.message, selected);
    if |tokens| == 0 {
      assert Restore(target, loc).candles == target.candles;
      assert target.candles + LitCandles(0) == target.candles;
    } else {
      assert 1 + Occurrences(loc.c.value, '-') == |tokens|;
    }
  }

  /** Restoring a shared fragment brings back a nonempty byte-string message and keeps the old one otherwise. */
  lemma RestoreSharedMessage(w: Widget, tokens: seq<string>, selected: Option<string>, target: Widget)
    requires IsByteString(w.message)
    ensures IsHexText(ToHex(w.message))
    ensures Restore(target, SharedLocation(tokens, w.message, selected)).message
            == if w.message == "" then target.message else w.message
  {
    FromHexToHex(w.message);
    assert ToHex(w.message) == "" <==> w.message == "";
  }

  /** Restoring a shared fragment gives vanilla exactly when the shared flavour was vanilla. */
  lemma RestoreSharedFlavor(w: Widget, tokens: seq<string>, selected: Option<string>, target: Widget)
    requires IsByteString(w.message)
    ensures IsHexText(ToHex(w.message))
    ensures Restore(target, SharedLocation(tokens, w.message, selected)).flavor == Vanilla
            <==> SelectedFlavor(selected) == "vanilla"
  {
    FromHexToHex(w.message);
  }

  /**
   Opening the link the share button wrote for widget `w` on a fresh page
   gives back the message, the flavour and one lit candle per shared candle.
   */
  lemma SharedLinkReproduces(w: Widget, tokens: seq<string>)
    requires |tokens| == |w.candles|
    requires forall k :: 0 <= k < |tokens| ==> tokens[k] != "" && '-' !in tokens[k] && '&' !in tokens[k] && '=' !in tokens[k]
    requires IsByteString(w.message)
    ensures ParseFragment(Share(w, tokens, Some(FlavorName(w.flavor))).hash)
            == SharedLocation(tokens, w.message, Some(FlavorName(w.flavor)))
    ensures IsHexText(ToHex(w.message))
    ensures var r := Restore(Initial, ParseFragment(Share(w, tokens, Some(FlavorName(w.flavor))).hash));
            r.message == w.message && r.flavor == w.flavor && r.candles == LitCandles(|w.candles|)
  {
    var selected := Some(FlavorName(w.flavor));
    assert SelectedFlavor(selected) == FlavorName(w.flavor);
    assert '&' !in FlavorName(w.flavor) && '=' !in FlavorName(w.flavor);
    ShareParses(w, tokens, selected);
    RestoreSharedCandles(w, tokens, selected, Initial);
    RestoreSharedMessage(w, tokens, selected, Initial);
    RestoreSharedFlavor(w, tokens, selected, Initial);
    assert [] + LitCandles(|tokens|) == LitCandles(|tokens|);
  }
}
