# Birthday cake widget — a Dafny model

This project models the logic of `script.js`, a browser birthday cake. The
user places candles by clicking the cake and blows them out into the
microphone. A custom message and a cake flavour (chocolate or vanilla) can be
set. The whole cake can be shared as a link whose fragment holds the candle
points, the message in hex, and the flavour.

Once the DOM, audio and browser plumbing are removed, what is left is modelled
as pure functions over an immutable widget record:

- `text.dfy` (module `Text`): `String.prototype.split` and
  `Array.prototype.join` on a one-character separator, and how they invert
  each other.
- `hex.dfy` (module `Hex`): the message codec `toHex` / `fromHex`.
  - `toHex` is modelled for every Unicode scalar value. A character is
    encoded from its first UTF-16 code unit, written by `toString(16)` and padded by
    `padStart(2, '0')`.
  - `fromHex` is modelled for even-length text of hex digits of either case,
    the digits `parseInt(_, 16)` accepts.
- `candles.dfy` (module `Candles`): a candle is `Lit` or `Out`; the count of
  lit candles; one blow over the candles with the random draws supplied as
  input.
- `audio.dfy` (module `Audio`): the blow test on one frame of byte
  magnitudes. Its mean is above 40 exactly when the sum exceeds 40 times the
  number of bins.
- `cake.dfy` (module `Cake`): the widget (candles, message, flavour, the
  number the count label shows, the page fragment) and its operations:
  - placing a candle;
  - refreshing the count;
  - clearing the cake;
  - one tick of the blow timer, and a run of ticks;
  - replaying `n` candles.
- `share.dfy` (module `Share`): building the share fragment, reading its
  `c`, `m` and `f` values back out of the page address, and applying them to
  the widget.

## Model

| member | source | states |
|---|---|---|
| Hex.HexDigit | script.js:11 | a value below 16 is written as one lowercase hex digit; `DigitValueOfHexDigit` shows it reads back as the value |
| Hex.ParseHex | script.js:16 | `parseInt(_, 16)` on one digit is below 16 and on two digits below 256 |
| Hex.PadStart2 | script.js:11 | `padStart(2, '0')` makes a one-digit string two long with a leading `0` and leaves longer strings alone; the original digits end the result |
| Hex.ToHex | script.js:10-12 | every output character is a lowercase hex digit, and the output has at least two digits per character, so only the empty string encodes to the empty string |
| Hex.ToHexLength | script.js:11 | the output has exactly two digits per character if and only if every character code is below 256 |
| Hex.FromHex | script.js:13-19 | one character per pair of digits, so the empty text decodes to the empty string |
| Hex.FromHexBytes | script.js:13-19 | every decoded character code is below 256 |
| Hex.ParsePair | script.js:16 | `parseInt` on a two-digit substring reads 16 times the high digit plus the low digit, which is the value `FromHex` gives the pair |
| Hex.FromHexAt | script.js:15-17 | decoded character `k` is the value of digit pair `k`: 16 times digit `2k` plus digit `2k+1`, reading upper- and lower-case digits alike |
| Hex.FromHexToHex | script.js:10-19 | for every string whose character codes are all below 256, the encoding is even-length hex text and decodes back to the string |
| Hex.ToHexFromHex | script.js:10-19 | even-length lowercase hex text is exactly the encoding of what it decodes to |
| Hex.WideCharactersCollide | script.js:11 | the encoding is not injective once a character code reaches 256: U+1000 U+0000 and U+0010 U+0000 U+0000 both encode to `100000` |
| Hex.ToBase16 | script.js:11 | `toString(16)` produces lowercase digits only; one digit exactly for values below 16, and at most two exactly for values below 256 |
| Hex.ToBase16Value | script.js:11 | reading the base-16 form back gives the number |
| Hex.Group | script.js:11 | a character's group has at least two lowercase digits, and exactly two if and only if the character code is below 256 |
| Hex.GroupValue | script.js:11 | a character's group reads back as its first UTF-16 code unit |
| Hex.ByteGroup | script.js:11 | the group of a character below 256 is its high hex digit followed by its low hex digit |
| Hex.CodeUnit | script.js:11 | `charCodeAt(0)` is below 65536. It is the character code itself for every character in one UTF-16 unit, and a high surrogate (0xD800 to 0xDBFF) for every other character. It is below 256 exactly for codes below 256 |
| Text.Split | script.js:132 | `split` never yields an empty list, so `"".split("-")` is one empty piece |
| Text.Join | script.js:126 | a join of `n` pieces holds at least `n - 1` separators |
| Text.SplitPieces | script.js:132 | `split` yields one more piece than there are separators, and no piece contains the separator |
| Text.SplitJoin | script.js:126-132 | splitting the `-`-join of nonempty separator-free tokens gives back the tokens |
| Text.JoinSplit | script.js:126-132 | joining the pieces of a split gives back the string |
| Candles.ActiveCount | script.js:24 | the number of lit candles is at most the number of candles |
| Candles.ActiveCountExtremes | script.js:24 | no candle is lit exactly when the count is zero, and every candle is lit exactly when the count is the number of candles |
| Candles.ActiveCountAppend | script.js:24 | the lit count of a concatenation is the sum of the counts |
| Candles.Extinguish | script.js:66-71 | the number of candles does not change; no candle is relit; the lit count falls by exactly the number blown out |
| Candles.ExtinguishAt | script.js:66-71 | a candle that was out stays out; a lit candle goes out exactly when its own draw is true, and its draw is the one numbered by the lit candles in front of it, because `&&` draws only for lit candles |
| Audio.Sum | script.js:55-58 | the sum of a frame's magnitudes is at most 255 times the number of bins |
| Audio.Loud | script.js:59-60 | a loud frame is never empty |
| Audio.IsBlowing | script.js:51-61 | the result is true exactly when the frame is loud, that is when the sum of the magnitudes exceeds 40 times their number; an empty frame (0/0 is NaN) is never blowing |
| Audio.MeanAboveThreshold | script.js:59-60 | for a nonempty frame, the real-valued mean exceeds 40 exactly when the integer sum exceeds 40 times the bin count |
| Audio.QuietFrameIsNotLoud | script.js:51-61 | a frame with no magnitude above 40 is never blowing |
| Audio.NoisyFrameIsLoud | script.js:51-61 | a nonempty frame with every magnitude above 40 is always blowing |
| Cake.UpdateCandleCount | script.js:23-26 | the label shows the number of lit candles afterwards; nothing else changes, and a label already in step is left alone |
| Cake.AddCandle | script.js:28-42 | exactly one lit candle is appended after the earlier, unchanged ones; the lit count rises by one; the label is in step; message, flavour and fragment are untouched |
| Cake.ResetCandles | script.js:99-107 | afterwards there are no candles, the label shows 0, and the message and fragment are empty; the flavour is kept |
| Cake.RestoreCandles | script.js:138-141 | `n` lit candles are appended after the existing ones; the lit count rises by `n`; the label is in step afterwards |
| Cake.BlowOutCandles | script.js:63-76 | on a loud frame the candles and the number blown out are exactly those of one blow with the given draws; a frame that is not loud changes nothing. The number of candles is kept and no candle is relit. The lit count falls by exactly the number blown out. The label is refreshed when at least one candle went out and otherwise nothing changes; a label in step stays in step |
| Cake.BlowOutCandleAt | script.js:65-71 | after a loud tick, a candle that was out stays out, and a lit candle goes out exactly when the draw numbered by the lit candles in front of it is true |
| Cake.SameCountSameCandles | script.js:66-75 | a blow that relights nothing and keeps the lit count has changed no candle, which is why skipping the refresh at zero loses nothing |
| Cake.NeverRelitBound | script.js:66-71 | a blow that relights nothing never raises the lit count |
| Cake.Run | script.js:87 | over any run of timer ticks, the candle count is kept, the lit count never rises, and a label in step stays in step; a run of quiet frames changes nothing |
| Share.SelectedFlavor | script.js:147 | the flavour written is the select's value when that value is nonempty, and `chocolate` when the select is missing or empty; it is never empty |
| Share.Fragment | script.js:145-149 | the fragment starts with `#c=` |
| Share.FragmentFields | script.js:145-149 | after the `#`, the fragment splits on `&` into exactly `c=<joined points>`, `m=<hex message>` and `f=<flavour>`, in that order, provided no point text or flavour contains `&` |
| Share.HexFieldAvoids | script.js:146-149 | the hex message field never contains `&`, so it can never break the fragment's field structure |
| Share.Share | script.js:144-151 | sharing sets the page fragment to the fragment of the points, message and selected flavour, which begins `#c=`, and changes nothing else |
| Share.Param | script.js:164-166 | `params.get(key)` has no value exactly when no field is named `key`; otherwise it is the value of the first field named `key` |
| Share.ParseFragment | script.js:160-166 | a `location.hash` of at most the `#` counts as no fragment, so `restoreFromHash` returns at once, and any longer one counts as a fragment; `Share.ShareParses` pins the values it yields |
| Share.KeyValueField | script.js:163-166 | a field written `key=value`, with no `=` in either, reads back as that name and value |
| Share.ShareParses | script.js:144-166 | reading back the fragment the share button wrote gives the joined points as `c`, the hex message as `m` and the flavour as `f`, when no point text or flavour holds `&` or `=` |
| Share.Restore | script.js:159-190 | with no fragment nothing changes. The flavour becomes vanilla if and only if `f` is `vanilla`. A nonempty `c` appends one lit candle per `-`-separated piece after the existing ones and brings the label in step; otherwise candles and label are untouched. A nonempty `m` replaces the message by its decoding; otherwise the message is kept |
| Share.JoinedPointCount | script.js:126-132 | the `-`-join of `n` nonempty `-`-free point tokens is empty exactly when `n` is 0, and otherwise splits back into `n` pieces |
| Share.RestoreSharedCandles | script.js:145-171 | restoring a shared fragment appends exactly as many lit candles as were shared, including none for an empty point text |
| Share.RestoreSharedMessage | script.js:146-181 | restoring a shared fragment brings back a nonempty byte-string message, and keeps the current message when the shared one was empty |
| Share.RestoreSharedFlavor | script.js:147-190 | restoring a shared fragment gives vanilla exactly when the shared flavour was `vanilla` |
| Share.SharedLinkReproduces | script.js:144-190 | opening, on a fresh page, the fragment the share button wrote for a widget gives the same message and flavour and one lit candle per shared candle |

## Left out

- The DOM is not modelled: element creation, styles, the `out` and `vanilla` classes, event listeners, `alert` and the message input. Candles are `Lit`/`Out` values and the flavour is a datatype field.
- The candle positions are not modelled, nor the point codec `encodeCandlePoints` / `decodeCandlePoints` (script.js:118-136). That code is floating-point division, clamping, `toFixed(4)` and `Number` parsing. A shared candle is an opaque nonempty point token without `-`. Restoring counts the `-`-separated pieces of `c` and appends that many lit candles; the coordinates are dropped, including the NaN coordinates of malformed pieces.
- Microphone access is not modelled: `getUserMedia`, `AudioContext`, the analyser, its FFT and the 200 ms `setInterval` (script.js:78-94). One frame of byte magnitudes is a parameter of a tick, and `Cake.Run` takes the sequence of frames.
- Audio.IsBlowing: the frame length is any length, not the analyser's fixed 128 bins. The method computes the mean as an exact real, not a double; with at most 255 × 128 as the sum, the double division is exact.
- `Math.random() > 0.5` is not modelled. Each lit candle takes the next element of an injected sequence of booleans.
- Candles.Extinguish requires at least as many draws as there are lit candles; the source draws as many as it needs.
- `URLSearchParams` percent-decoding and its reading of `+` as a space (script.js:163) are not modelled: `Share.ParseFragment` splits on `&` and `=` only. The fragment the share button writes holds neither `%` nor `+` (points are digits, `.`, `_` and `-`; the message is hex; the flavours are plain words), so for it the two readings agree. `Share.Restore` itself takes the `c`, `m` and `f` values already extracted.
- `history.replaceState`, `location` and the clipboard are not modelled; the fragment is a string field of the widget.
- The message button and `trim` (script.js:113-116) are not modelled; the message is whatever string the widget holds.
- The flavour select's change listener (script.js:193-203) is not modelled. It only mirrors the select's value onto the cake class.
- Share.Restore: requires a present `m` to be even-length hex text. For malformed or odd-length input, `fromHex` relies on `parseInt` prefix parsing and on `String.fromCharCode(NaN)` giving U+0000; that is engine behaviour left out. `fromHex` itself never throws. The `catch` at script.js:178 fires only when `customMessageInput` or `customMessageDisplay` (script.js:109-110) is missing from the page, so that lines 176-177 dereference null; the message just decoded is then cleared. That is DOM behaviour and is left out: the model always keeps the decoded message.
- Hex.FromHex: restricted to even-length hex text for the same reason.
- Share.Fragment: its contract states only the `#c=` prefix. The exact layout of the three fields is stated by `Share.FragmentFields`.
- `resetCandles` keeps the flavour (script.js:99-107), so `Cake.ResetCandles` does not restore the default flavour. Since `fromHex` never throws, no restore empties the message because of a failed decoding.
- A JavaScript string can hold a lone surrogate code unit, which a Dafny `char` (a Unicode scalar value) cannot. `toHex` on such strings is not modelled.
- A nonempty fragment without an `f` value turns the cake chocolate: `Share.Restore` states this, following script.js:184-190.
